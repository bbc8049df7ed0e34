/** The SSH session channel seen by the interactive loop: the chunks the client
    still sends (each one `chan.recv(1024)` result, already decoded) and the log
    of everything the honeypot sends back with `chan.send`. */
module SshChannel {
  import opened Lists

  class Channel {
    /** Chunks the client will deliver, in arrival order. */
    var incoming: seq<string>
    /** Every `chan.send` argument so far, in order. */
    var sent: seq<string>

    constructor (input: seq<string>)
      ensures incoming == input && sent == []
    {
      incoming := input;
      sent := [];
    }

    /** `chan.send(data)` */
    method Send(data: string)
      modifies this
      ensures sent == old(sent) + [data] && incoming == old(incoming)
    {
      sent := sent + [data];
    }

    /** `chan.recv(1024)`: the next chunk, or `None` when the client delivers
        nothing more, which stands for the read timing out and raising. */
    method Recv() returns (chunk: Option<string>)
      modifies this
      ensures sent == old(sent)
      ensures old(incoming) == [] ==> chunk == None && incoming == []
      ensures old(incoming) != [] ==> chunk == Some(old(incoming)[0]) && incoming == old(incoming)[1..]
    {
      if incoming == [] {
        chunk := None;
      } else {
        chunk := Some(incoming[0]);
        incoming := incoming[1..];
      }
    }
  }
}
