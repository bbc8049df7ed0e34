/** `handle_cmd` (ssh_honeypot.py): the canned answer to a command line, after
    the command has been scanned for download targets. */
module Responder {
  import opened Lists
  import opened Text
  import opened RedisQueue
  import opened SshChannel
  import Ioc

  /** The recognised command prefixes and their canned answers, in the order
      `handle_cmd` tests them. */
  const CannedResponses: seq<(string, string)> := [("ls", "users.txt"), ("pwd", "/home/root")]

  /** The answer of the first entry of `table` whose prefix starts `cmd`. */
  function Lookup(table: seq<(string, string)>, cmd: string): (r: Option<string>)
    ensures r.None? <==> forall k :: 0 <= k < |table| ==> !StartsWith(cmd, table[k].0)
  {
    if table == [] then None
    else if StartsWith(cmd, table[0].0) then Some(table[0].1)
    else Lookup(table[1..], cmd)
  }

  /** First prefix wins: a found answer belongs to the earliest entry whose
      prefix starts `cmd`. */
  lemma {:induction false} LookupFirstMatch(table: seq<(string, string)>, cmd: string)
    requires Lookup(table, cmd).Some?
    ensures exists k :: 0 <= k < |table| && FirstMatch(table, cmd, k) && Lookup(table, cmd).value == table[k].1
  {
    if StartsWith(cmd, table[0].0) {
      assert FirstMatch(table, cmd, 0);
    } else {
      LookupFirstMatch(table[1..], cmd);
      var k :| 0 <= k < |table[1..]| && FirstMatch(table[1..], cmd, k) && Lookup(table[1..], cmd).value == table[1..][k].1;
      assert FirstMatch(table, cmd, k + 1);
    }
  }

  /** Entry `k` of `table` is the first whose prefix starts `cmd`. */
  ghost predicate FirstMatch(table: seq<(string, string)>, cmd: string, k: int)
    requires 0 <= k < |table|
  {
    StartsWith(cmd, table[k].0) && forall m :: 0 <= m < k ==> !StartsWith(cmd, table[m].0)
  }

  /** The table read as `handle_cmd`'s `if`/`elif` chain. */
  lemma CannedLookup(cmd: string)
    ensures StartsWith(cmd, "ls") ==> Lookup(CannedResponses, cmd) == Some("users.txt")
    ensures !StartsWith(cmd, "ls") && StartsWith(cmd, "pwd") ==> Lookup(CannedResponses, cmd) == Some("/home/root")
    ensures !StartsWith(cmd, "ls") && !StartsWith(cmd, "pwd") ==> Lookup(CannedResponses, cmd) == None
  {
    assert CannedResponses[0] == ("ls", "users.txt");
    assert CannedResponses[1..] == [("pwd", "/home/root")];
    assert CannedResponses[1..][1..] == [];
  }

  /** What `handle_cmd` sends for `cmd`: the canned answer followed by `"\r\n"`,
      or the empty string when no prefix matches. */
  function Response(cmd: string): (r: string)
    ensures StartsWith(cmd, "ls") ==> r == "users.txt\r\n"
    ensures !StartsWith(cmd, "ls") && StartsWith(cmd, "pwd") ==> r == "/home/root\r\n"
    ensures !StartsWith(cmd, "ls") && !StartsWith(cmd, "pwd") ==> r == ""
  {
    CannedLookup(cmd);
    var text := match Lookup(CannedResponses, cmd)
      case None => ""
      case Some(t) => t;
    if text != "" then text + "\r\n" else text
  }

  /** `handle_cmd(cmd, chan, ip)`, with `matches` standing for the generic URL
      pattern's matches in `cmd`. The whole command is scanned and its targets
      pushed whatever the answer; then exactly one `chan.send` carries the
      answer. */
  method HandleCmd(cmd: string, matches: seq<seq<string>>, chan: Channel, q: DownloadQueue)
    modifies chan, q
    ensures q.items == Reversed(Ioc.Detected(cmd, matches)) + old(q.items)
    ensures chan.sent == old(chan.sent) + [Response(cmd)]
    ensures chan.incoming == old(chan.incoming)
  {
    Ioc.DetectUrl(cmd, matches, q);
    var response := "";
    if StartsWith(cmd, "ls") {
      response := "users.txt";
    } else if StartsWith(cmd, "pwd") {
      response := "/home/root";
    }
    if response != "" {
      response := response + "\r\n";
    }
    assert "users.txt" + "\r\n" == "users.txt\r\n";
    assert "/home/root" + "\r\n" == "/home/root\r\n";
    chan.Send(response);
  }
}
