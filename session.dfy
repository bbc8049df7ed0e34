/** The interactive shell of `handle_connection` (ssh_honeypot.py): after the
    welcome banner, prompt, read chunks until the accumulated text ends with a
    carriage return, echo and keep every chunk but the arrow and DEL keys, then
    either stop on `exit` or hand the trimmed line to `handle_cmd`.

    `ShellTranscript` is the reference definition of one whole session, line by
    line; `Interact` is the nested loop of the source, proved to produce exactly
    that transcript on the channel and the queue. */
module Session {
  import opened Lists
  import opened Text
  import opened RedisQueue
  import opened SshChannel
  import Ioc
  import Responder

  /** The key sequences the terminal sends for the four arrows and DEL. */
  const UpKey: string := "\U{1B}[A"
  const DownKey: string := "\U{1B}[B"
  const RightKey: string := "\U{1B}[C"
  const LeftKey: string := "\U{1B}[D"
  const BackKey: string := "\U{7F}"

  const Welcome: string := "Welcome to Ubuntu 18.04.4 LTS (GNU/Linux 4.15.0-128-generic x86_64)\r\n\r\n"
  const Prompt: string := "$ "
  const CrLf: string := "\r\n"

  /** `s.endswith("\r")`: the line is complete. */
  predicate EndsWithCr(s: string)
  {
    |s| > 0 && s[|s| - 1] == '\r'
  }

  /** A received chunk that is, as a whole, one of the dropped key sequences. */
  predicate IsKey(chunk: string)
  {
    chunk == UpKey || chunk == DownKey || chunk == LeftKey || chunk == RightKey || chunk == BackKey
  }

  /** The chunks of `chunks` that are not key sequences, in order. */
  function Kept(chunks: seq<string>): seq<string>
  {
    if chunks == [] then []
    else (if IsKey(chunks[0]) then [] else [chunks[0]]) + Kept(chunks[1..])
  }

  lemma {:induction false} KeptMembers(chunks: seq<string>)
    ensures forall c :: c in Kept(chunks) <==> c in chunks && !IsKey(c)
  {
    if chunks != [] {
      KeptMembers(chunks[1..]);
      assert chunks == [chunks[0]] + chunks[1..];
    }
  }

  /** The outcome of reading one line: either the line completed, with the
      chunks echoed on the way, the raw text (ending in `"\r"`) and the chunks
      left unread; or the client stopped sending first. */
  datatype LineRead =
    | Complete(echoed: seq<string>, raw: string, rest: seq<string>)
    | Closed(echoed: seq<string>)

  /** `r` with the chunks `e` echoed before it. */
  function Echoing(e: seq<string>, r: LineRead): LineRead
  {
    match r
    case Complete(e', raw, rest) => Complete(e + e', raw, rest)
    case Closed(e') => Closed(e + e')
  }

  /** Echoing `a` and then `b` is echoing `a + b`. */
  lemma EchoingTwice(a: seq<string>, b: seq<string>, r: LineRead)
    ensures Echoing(a, Echoing(b, r)) == Echoing(a + b, r)
  {
    match r
    case Complete(e, raw, rest) => AppendAssoc(a, b, e);
    case Closed(e) => AppendAssoc(a, b, e);
  }

  /** The inner loop from an accumulated text `acc`: while `acc` does not end
      with `"\r"`, take the next chunk and, unless it is a key sequence, echo it
      and append it. */
  function ReadFrom(acc: string, chunks: seq<string>): (r: LineRead)
    ensures r.Complete? ==> |r.rest| <= |chunks| && (!EndsWithCr(acc) ==> |r.rest| < |chunks|)
    decreases |chunks|
  {
    if EndsWithCr(acc) then Complete([], acc, chunks)
    else if chunks == [] then Closed([])
    else if IsKey(chunks[0]) then ReadFrom(acc, chunks[1..])
    else Echoing([chunks[0]], ReadFrom(acc + chunks[0], chunks[1..]))
  }

  /** `acc` extended by the first `m` chunks, key sequences dropped. */
  function Accumulated(acc: string, chunks: seq<string>, m: nat): string
    requires m <= |chunks|
  {
    acc + Flatten(Kept(chunks[..m]))
  }

  /** One step of accumulation: the first chunk goes in (unless it is a key
      sequence), then the following `m - 1`. */
  lemma {:induction false} AccumulatedStep(acc: string, chunks: seq<string>, m: nat)
    requires 1 <= m <= |chunks|
    ensures Accumulated(acc, chunks, m)
      == Accumulated(if IsKey(chunks[0]) then acc else acc + chunks[0], chunks[1..], m - 1)
  {
    var c := chunks[0];
    var tail := Kept(chunks[1..][..m - 1]);
    assert chunks[..m][0] == c && chunks[..m][1..] == chunks[1..][..m - 1];
    assert Kept(chunks[..m]) == (if IsKey(c) then [] else [c]) + tail;
    if !IsKey(c) {
      assert ([c] + tail)[0] == c && ([c] + tail)[1..] == tail;
      assert Flatten([c] + tail) == c + Flatten(tail);
    } else {
      assert [] + tail == tail;
    }
  }

  /** A completed line leaves exactly a suffix of the input unread. */
  lemma {:induction false} ReadFromRest(acc: string, chunks: seq<string>)
    requires ReadFrom(acc, chunks).Complete?
    ensures ReadFrom(acc, chunks).rest == chunks[|chunks| - |ReadFrom(acc, chunks).rest|..]
    decreases |chunks|
  {
    if EndsWithCr(acc) {
      assert chunks[0..] == chunks;
    } else {
      var c := chunks[0];
      var next := if IsKey(c) then acc else acc + c;
      ReadFromRest(next, chunks[1..]);
      var n := |chunks| - |ReadFrom(next, chunks[1..]).rest|;
      assert chunks[n..] == chunks[1..][n - 1..];
    }
  }

  /** A completed line echoed exactly the chunks it consumed that are not key
      sequences. */
  lemma {:induction false} ReadFromEchoed(acc: string, chunks: seq<string>)
    requires ReadFrom(acc, chunks).Complete?
    ensures ReadFrom(acc, chunks).echoed == Kept(chunks[..|chunks| - |ReadFrom(acc, chunks).rest|])
    decreases |chunks|
  {
    if EndsWithCr(acc) {
      assert chunks[..0] == [];
    } else {
      var c := chunks[0];
      var next := if IsKey(c) then acc else acc + c;
      ReadFromEchoed(next, chunks[1..]);
      var n := |chunks| - |ReadFrom(next, chunks[1..]).rest|;
      assert chunks[..n][0] == c && chunks[..n][1..] == chunks[1..][..n - 1];
    }
  }

  /** A completed line is the echoed chunks appended to `acc`, and ends with
      `"\r"`. */
  lemma {:induction false} ReadFromRaw(acc: string, chunks: seq<string>)
    requires ReadFrom(acc, chunks).Complete?
    ensures ReadFrom(acc, chunks).raw == acc + Flatten(ReadFrom(acc, chunks).echoed)
    ensures EndsWithCr(ReadFrom(acc, chunks).raw)
    decreases |chunks|
  {
    if !EndsWithCr(acc) {
      var c := chunks[0];
      var next := if IsKey(c) then acc else acc + c;
      ReadFromRaw(next, chunks[1..]);
      if !IsKey(c) {
        var e := ReadFrom(next, chunks[1..]).echoed;
        assert ([c] + e)[0] == c && ([c] + e)[1..] == e;
        AppendAssoc(acc, c, Flatten(e));
      }
    }
  }

  /** A read that ran out of input echoed every chunk that is not a key
      sequence. */
  lemma {:induction false} ReadFromClosed(acc: string, chunks: seq<string>)
    requires ReadFrom(acc, chunks).Closed?
    ensures ReadFrom(acc, chunks).echoed == Kept(chunks)
    decreases |chunks|
  {
    if chunks != [] {
      var c := chunks[0];
      ReadFromClosed(if IsKey(c) then acc else acc + c, chunks[1..]);
    }
  }

  /** Reading stops at the first chance: no shorter prefix of the consumed
      chunks (of all the chunks, when the read ran out of input) already gave a
      text ending with `"\r"`. */
  lemma {:induction false} ReadFromEarliest(acc: string, chunks: seq<string>, m: nat)
    requires m <= |chunks|
    requires ReadFrom(acc, chunks).Complete? ==> m < |chunks| - |ReadFrom(acc, chunks).rest|
    ensures !EndsWithCr(Accumulated(acc, chunks, m))
    decreases |chunks|
  {
    if m == 0 {
      assert chunks[..0] == [];
    } else {
      var c := chunks[0];
      var next := if IsKey(c) then acc else acc + c;
      AccumulatedStep(acc, chunks, m);
      ReadFromEarliest(next, chunks[1..], m - 1);
    }
  }

  /** Nothing ever echoed is a key sequence. */
  lemma {:induction false} EchoedNotKeys(acc: string, chunks: seq<string>)
    ensures forall c :: c in ReadFrom(acc, chunks).echoed ==> !IsKey(c)
    decreases |chunks|
  {
    if !EndsWithCr(acc) && chunks != [] {
      if IsKey(chunks[0]) {
        EchoedNotKeys(acc, chunks[1..]);
      } else {
        EchoedNotKeys(acc + chunks[0], chunks[1..]);
      }
    }
  }

  /** How a session ended: on the `exit` command, or because the client stopped
      sending (the read timed out and the loop was left by an exception). */
  datatype Stop = ExitCommand | InputClosed

  /** What a session does: every `chan.send` after the welcome banner, every
      logged command line, how it ended and the chunks left unread. */
  datatype Transcript = Transcript(sent: seq<string>, commands: seq<string>, stop: Stop, rest: seq<string>)

  /** The session for the client's chunks `chunks`. Each round sends the prompt,
      the echoes, then `"\r\n"` once the line is complete, and then either stops
      on `exit` or sends the answer of `handle_cmd` to the trimmed line. */
  function ShellTranscript(chunks: seq<string>): (t: Transcript)
    ensures |t.sent| > 0 && t.sent[0] == Prompt
    ensures |t.rest| <= |chunks|
    decreases |chunks|
  {
    match ReadFrom("", chunks)
    case Closed(e) => Transcript([Prompt] + e, [], InputClosed, [])
    case Complete(e, raw, rest) =>
      var cmd := RStrip(raw);
      var line := [Prompt] + e + [CrLf];
      if cmd == "exit" then Transcript(line, [cmd], ExitCommand, rest)
      else
        var t := ShellTranscript(rest);
        Transcript(line + [Responder.Response(cmd)] + t.sent, [cmd] + t.commands, t.stop, t.rest)
  }

  /** A session leaves exactly a suffix of the client's chunks unread. */
  lemma {:induction false} TranscriptRest(chunks: seq<string>)
    ensures ShellTranscript(chunks).rest == chunks[|chunks| - |ShellTranscript(chunks).rest|..]
    decreases |chunks|
  {
    var r := ReadFrom("", chunks);
    if r.Closed? {
      assert chunks[|chunks|..] == [];
    } else {
      ReadFromRest("", chunks);
      var cmd := RStrip(r.raw);
      if cmd != "exit" {
        TranscriptRest(r.rest);
        var n := |chunks| - |r.rest|;
        var k := |r.rest| - |ShellTranscript(r.rest).rest|;
        assert chunks[n + k..] == r.rest[k..];
      }
    }
  }

  /** Everything `handle_cmd` pushes for the logged commands `commands`, in push
      order: `exit` is not dispatched. `urlMatches` stands for the generic URL
      pattern's matches in a command. */
  function Pushes(commands: seq<string>, urlMatches: string -> seq<seq<string>>): seq<string>
  {
    if commands == [] then []
    else
      (if commands[0] == "exit" then [] else Ioc.Detected(commands[0], urlMatches(commands[0])))
      + Pushes(commands[1..], urlMatches)
  }

  /** No prompt, line end or canned answer is a key sequence. */
  lemma RepliesNotKeys(cmd: string)
    ensures !IsKey(Prompt) && !IsKey(CrLf) && !IsKey(Responder.Response(cmd))
  {
    var r := Responder.Response(cmd);
    assert r == "" || r == "users.txt\r\n" || r == "/home/root\r\n";
  }

  /** A key sequence is never sent back: not as an echo, and no prompt, line
      end or canned answer is one. */
  lemma {:induction false} NoKeySent(chunks: seq<string>)
    ensures forall c :: c in ShellTranscript(chunks).sent ==> !IsKey(c)
    decreases |chunks|
  {
    EchoedNotKeys("", chunks);
    match ReadFrom("", chunks)
    case Closed(e) =>
      RepliesNotKeys("");
    case Complete(e, raw, rest) =>
      var cmd := RStrip(raw);
      RepliesNotKeys(cmd);
      if cmd != "exit" {
        NoKeySent(rest);
      }
  }

  /** A line with no trailing whitespace, as `rstrip` leaves it. */
  predicate Trimmed(s: string)
  {
    s == [] || !IsSpace(s[|s| - 1])
  }

  /** Every logged command has no trailing whitespace. */
  lemma {:induction false} CommandsTrimmed(chunks: seq<string>)
    ensures forall c :: c in ShellTranscript(chunks).commands ==> Trimmed(c)
    decreases |chunks|
  {
    match ReadFrom("", chunks)
    case Closed(e) =>
    case Complete(e, raw, rest) =>
      var cmd := RStrip(raw);
      assert Trimmed(cmd) by {
        RStripPrefix(raw);
      }
      if cmd != "exit" {
        CommandsTrimmed(rest);
        assert ShellTranscript(chunks).commands == [cmd] + ShellTranscript(rest).commands;
      }
  }

  /** `exit` can only be the last logged command, and the session ends by the
      `exit` command exactly when its last command is `exit`. */
  lemma {:induction false} ExitLast(chunks: seq<string>)
    ensures var t := ShellTranscript(chunks);
      && (forall i :: 0 <= i < |t.commands| - 1 ==> t.commands[i] != "exit")
      && (t.stop == ExitCommand <==> |t.commands| > 0 && t.commands[|t.commands| - 1] == "exit")
    decreases |chunks|
  {
    match ReadFrom("", chunks)
    case Closed(e) =>
    case Complete(e, raw, rest) =>
      var cmd := RStrip(raw);
      if cmd != "exit" {
        ExitLast(rest);
        var t := ShellTranscript(rest);
        assert ShellTranscript(chunks).commands == [cmd] + t.commands;
      }
  }

  /** A value is pushed exactly when it is found, non-empty, in a dispatched
      command, that is, a logged command other than `exit`. */
  lemma {:induction false} PushesMembers(commands: seq<string>, urlMatches: string -> seq<seq<string>>)
    ensures forall u :: u in Pushes(commands, urlMatches) ==> u != ""
    ensures forall u :: u in Pushes(commands, urlMatches) <==>
      exists i :: 0 <= i < |commands| && commands[i] != "exit" && u in Ioc.Detected(commands[i], urlMatches(commands[i]))
  {
    if commands != [] {
      var cmd := commands[0];
      var tail := commands[1..];
      PushesMembers(tail, urlMatches);
      Ioc.DetectedMembers(cmd, urlMatches(cmd));
      forall u | exists i :: 0 <= i < |commands| && commands[i] != "exit" && u in Ioc.Detected(commands[i], urlMatches(commands[i]))
        ensures u in Pushes(commands, urlMatches)
      {
        var i :| 0 <= i < |commands| && commands[i] != "exit" && u in Ioc.Detected(commands[i], urlMatches(commands[i]));
        if i > 0 {
          assert tail[i - 1] == commands[i];
        }
      }
      forall u | u in Pushes(tail, urlMatches)
        ensures exists i :: 0 <= i < |commands| && commands[i] != "exit" && u in Ioc.Detected(commands[i], urlMatches(commands[i]))
      {
        var i :| 0 <= i < |tail| && tail[i] != "exit" && u in Ioc.Detected(tail[i], urlMatches(tail[i]));
        assert commands[i + 1] == tail[i];
      }
    }
  }

  /** The inner loop of `handle_connection`: read chunks until the text ends
      with `"\r"`, echoing and keeping every chunk that is not a key sequence.
      `timedOut` reports that the client stopped sending first. */
  method ReadLine(chan: Channel) returns (command: string, timedOut: bool)
    modifies chan
    ensures var r := ReadFrom("", old(chan.incoming));
      && (timedOut <==> r.Closed?)
      && chan.sent == old(chan.sent) + r.echoed
      && (r.Complete? ==> command == r.raw && chan.incoming == r.rest)
      && (r.Closed? ==> chan.incoming == [])
  {
    ghost var echoed: seq<string> := [];
    command := "";
    assert Echoing([], ReadFrom("", chan.incoming)) == ReadFrom("", chan.incoming);
    while !EndsWithCr(command)
      invariant chan.sent == old(chan.sent) + echoed
      invariant ReadFrom("", old(chan.incoming)) == Echoing(echoed, ReadFrom(command, chan.incoming))
      decreases |chan.incoming|
    {
      ghost var incoming := chan.incoming;
      var chunk := chan.Recv();
      if chunk.None? {
        return command, true;
      }
      var data := chunk.value;
      assert incoming == [data] + chan.incoming;
      if data != UpKey && data != DownKey && data != LeftKey && data != RightKey && data != BackKey {
        chan.Send(data);
        EchoingTwice(echoed, [data], ReadFrom(command + data, chan.incoming));
        command := command + data;
        echoed := echoed + [data];
      }
    }
    return command, false;
  }

  /** The interactive part of `handle_connection`: the welcome banner, then the
      prompt/read/dispatch loop until `exit` or until the client stops sending.
      The channel ends up with exactly the session's sends, the queue with
      exactly the pushes of its dispatched commands (each one at the head). */
  method Interact(chan: Channel, q: DownloadQueue, urlMatches: string -> seq<seq<string>>)
    returns (stop: Stop)
    modifies chan, q
    ensures var t := ShellTranscript(old(chan.incoming));
      && chan.sent == old(chan.sent) + [Welcome] + t.sent
      && q.items == Reversed(Pushes(t.commands, urlMatches)) + old(q.items)
      && chan.incoming == t.rest
      && stop == t.stop
  {
    ghost var whole := ShellTranscript(chan.incoming);
    ghost var wholePushed := Pushes(whole.commands, urlMatches);
    chan.Send(Welcome);
    ghost var doneSent: seq<string> := [];
    ghost var donePushed: seq<string> := [];
    var run := true;
    while run
      invariant chan.sent == old(chan.sent) + [Welcome] + doneSent
      invariant q.items == Reversed(donePushed) + old(q.items)
      invariant run ==> Continues(whole, wholePushed, doneSent, donePushed, ShellTranscript(chan.incoming), urlMatches)
      invariant !run ==> (doneSent == whole.sent && donePushed == wholePushed
        && chan.incoming == whole.rest && whole.stop == ExitCommand)
      decreases if run then |chan.incoming| + 1 else 0
    {
      ghost var lineStart := chan.incoming;
      ghost var line := ReadFrom("", lineStart);
      ghost var sentBefore := chan.sent;
      chan.Send(Prompt);
      var command, timedOut := ReadLine(chan);
      ghost var roundSent := [Prompt] + line.echoed;
      AppendAssoc(sentBefore, [Prompt], line.echoed);
      if timedOut {
        TranscriptClosed(lineStart);
        AppendAssoc(old(chan.sent) + [Welcome], doneSent, roundSent);
        assert wholePushed == donePushed by {
          assert Pushes([], urlMatches) == [] && donePushed + [] == donePushed;
        }
        return InputClosed;
      }
      chan.Send(CrLf);
      AppendAssoc(sentBefore, roundSent, [CrLf]);
      roundSent := roundSent + [CrLf];
      command := RStrip(command);
      if command == "exit" {
        TranscriptExit(lineStart, urlMatches);
        assert donePushed + [] == donePushed;
        AppendAssoc(old(chan.sent) + [Welcome], doneSent, roundSent);
        doneSent := doneSent + roundSent;
        run := false;
      } else {
        ghost var found := Ioc.Detected(command, urlMatches(command));
        TranscriptCommand(lineStart, command, urlMatches);
        Responder.HandleCmd(command, urlMatches(command), chan, q);
        Ioc.PushedAfter(donePushed, found, old(q.items));
        AppendAssoc(sentBefore, roundSent, [Responder.Response(command)]);
        roundSent := roundSent + [Responder.Response(command)];
        AppendAssoc(old(chan.sent) + [Welcome], doneSent, roundSent);
        AppendAssoc(doneSent, roundSent, ShellTranscript(chan.incoming).sent);
        AppendAssoc(donePushed, found, Pushes(ShellTranscript(chan.incoming).commands, urlMatches));
        doneSent := doneSent + roundSent;
        donePushed := donePushed + found;
      }
    }
    return ExitCommand;
  }

  /** A round whose read runs out of input ends the session after the prompt
      and the echoes. */
  lemma TranscriptClosed(chunks: seq<string>)
    requires ReadFrom("", chunks).Closed?
    ensures ShellTranscript(chunks) == Transcript([Prompt] + ReadFrom("", chunks).echoed, [], InputClosed, [])
  {
  }

  /** A round reading `exit` ends the session after the prompt, the echoes and
      the line end; nothing is dispatched. */
  lemma TranscriptExit(chunks: seq<string>, urlMatches: string -> seq<seq<string>>)
    requires ReadFrom("", chunks).Complete? && RStrip(ReadFrom("", chunks).raw) == "exit"
    ensures var r := ReadFrom("", chunks);
      && ShellTranscript(chunks) == Transcript([Prompt] + r.echoed + [CrLf], ["exit"], ExitCommand, r.rest)
      && Pushes(["exit"], urlMatches) == []
  {
    assert ["exit"][1..] == [];
  }

  /** A round reading any other command sends the prompt, the echoes, the line
      end and the answer, pushes what the command holds, and carries on. */
  lemma TranscriptCommand(chunks: seq<string>, cmd: string, urlMatches: string -> seq<seq<string>>)
    requires ReadFrom("", chunks).Complete? && cmd == RStrip(ReadFrom("", chunks).raw) && cmd != "exit"
    ensures var r := ReadFrom("", chunks);
      var t := ShellTranscript(r.rest);
      && ShellTranscript(chunks).sent == [Prompt] + r.echoed + [CrLf] + [Responder.Response(cmd)] + t.sent
      && ShellTranscript(chunks).commands == [cmd] + t.commands
      && ShellTranscript(chunks).stop == t.stop
      && ShellTranscript(chunks).rest == t.rest
      && Pushes([cmd] + t.commands, urlMatches) == Ioc.Detected(cmd, urlMatches(cmd)) + Pushes(t.commands, urlMatches)
  {
    var t := ShellTranscript(ReadFrom("", chunks).rest);
    assert ([cmd] + t.commands)[0] == cmd && ([cmd] + t.commands)[1..] == t.commands;
  }

  /** `whole` is what has been done so far followed by the transcript `t` of
      the rest of the session. */
  ghost predicate Continues(whole: Transcript, wholePushed: seq<string>, doneSent: seq<string>,
                            donePushed: seq<string>, t: Transcript, urlMatches: string -> seq<seq<string>>)
  {
    && whole.sent == doneSent + t.sent
    && wholePushed == donePushed + Pushes(t.commands, urlMatches)
    && whole.stop == t.stop
    && whole.rest == t.rest
  }
}
