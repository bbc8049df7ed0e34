# SSH honeypot: session logic and download worker

This project is a Dafny model of the two pieces of sequential logic in the SSH
honeypot. Both are proved against specifications.

- **The interactive shell** (`ssh_honeypot.py`).
  - After the welcome banner, each round sends the `$ ` prompt. It then reads
    chunks from the channel until the accumulated text ends with a carriage
    return.
  - A chunk equal to one of the four arrow-key sequences or DEL is dropped.
    Every other chunk is echoed and appended whole.
  - The completed line is followed by `"\r\n"` and right-stripped. `exit` ends
    the session; any other line goes to `handle_cmd`.
  - `handle_cmd` first runs `detect_url` on the whole line, then sends the
    canned answer for `ls` or `pwd`, or the empty string for anything else.
  - `detect_url` `lpush`es onto the Redis list `download_queue`:
    - every non-empty capture group of every match of the generic URL pattern;
    - then every match of the IP-literal pattern `[0-9]+(?:\.[0-9]+){3}\/\S*`,
      one push per occurrence.
- **The download worker** (`ssh_honeypot_downloader.py`).
  - The worker `lpop`s values off the same list. The producer pushes at the
    head and the worker pops from the head, so the queue is last-in-first-out.
  - It downloads each URL at most once. It records every URL it handles in
    `checked_urls`: with the SHA-256 digest of the body on a complete status-200
    response, and with `''` otherwise.
  - It stores the body in an archive keyed by that digest, named after the base
    name of the URL path. It writes the archive only if that digest has none yet.

## Modules

- `Lists`: option values, concatenating a list of chunks, and the order that
  `lpush` leaves.
- `Text`: Python's `isspace`, `startswith`, `rstrip` and `os.path.basename` on
  strings.
- `RedisQueue`: `download_queue` as a class whose `Push` is `lpush` and whose
  `Pop` is `lpop`.
- `SshChannel`: the SSH channel as the client's remaining chunks plus the log
  of everything sent.
- `Ioc`: `detect_url`.
  - The IP-literal pattern is modelled as the left-to-right scan that
    `re.findall` performs.
  - The generic pattern's `findall` result is an input.
- `Responder`: `handle_cmd` as an ordered prefix table.
- `Session`: the prompt/read/dispatch loop.
  - `ShellTranscript` is the reference definition of a whole session.
  - `ReadLine` and `Interact` are the source's nested `while` loops, proved to
    produce that transcript on the channel and that sequence of pushes on the
    queue.
- `Downloader`: `downloadURL` and the poll loop.
  - `Download` and `DownloadAll` are the reference functions.
  - `Worker` is the imperative worker, proved equal to them.
  - `Consistent` is the invariant the reference functions preserve:
    content-addressed archives, every recorded digest stored, no URL fetched
    twice.

Two points of the code's behaviour that are easy to misread:

- The download queue is last-in-first-out. `lpush` in `ssh_honeypot.py` and
  `lpop` in `ssh_honeypot_downloader.py` both use the head of the list, so the
  most recently pushed URL is downloaded first.
- For an unrecognised command, `handle_cmd` sends the empty string. The
  `"\r\n"` a client sees after every line is the separate send at
  `ssh_honeypot.py:168`, which comes before `handle_cmd` runs.

## Model

| member | source | states |
|---|---|---|
| Text.IsSpace | ssh_honeypot.py:169 | the whitespace of `str.isspace()`, which `rstrip()` removes here and which is also the `\s` class whose complement `\S` the IP-literal pattern at line 61 uses |
| Text.IsDigit | ssh_honeypot.py:61 | the class `[0-9]`, ASCII digits only |
| Text.StartsWith | ssh_honeypot.py:82-84 | `str.startswith`: the prefix is no longer than the text and equals its beginning |
| Text.RStrip | ssh_honeypot.py:169 | `command.rstrip()`: drops trailing whitespace one character at a time; its meaning is stated by `RStripPrefix` |
| Text.RStripPrefix | ssh_honeypot.py:169 | `rstrip` leaves a prefix of the line that does not end in whitespace, and everything it removes is whitespace |
| Text.BaseName | ssh_honeypot_downloader.py:44 | `os.path.basename`: the text after the last `/`; its meaning is stated by `BaseNameSuffix` and `BaseNameAfterSlash` |
| Text.BaseNameSuffix | ssh_honeypot_downloader.py:43-44 | the archive member name is a suffix of the URL path |
| Text.BaseNameAfterSlash | ssh_honeypot_downloader.py:43-44 | the name contains no `/` and starts just after the last `/` of the path; it is the whole path when there is none |
| RedisQueue.DownloadQueue.Push | ssh_honeypot.py:58 | `lpush` puts the value at the head of the list and keeps the rest |
| RedisQueue.DownloadQueue.Pop | ssh_honeypot_downloader.py:94 | `lpop` removes and returns the head; an empty list gives nothing and stays empty |
| Lists.Reversed | ssh_honeypot.py:58 | the order a batch of values has on the list after being `lpush`ed one by one: the last pushed at the head; `ReversedAt` states it element by element |
| Lists.ReversedAt | ssh_honeypot.py:58 | the k-th value from the head is the k-th last one pushed |
| Lists.Flatten | ssh_honeypot_downloader.py:73 | `b''.join(chunks)`: the chunks concatenated first to last |
| Lists.FlattenSnoc | ssh_honeypot_downloader.py:58-60 | one more chunk extends the concatenation by that chunk, the step of the `iter_content` loop |
| RedisQueue.LastPushedPoppedFirst | ssh_honeypot_downloader.py:94 | values pushed in order come back from `lpop` newest first |
| SshChannel.Channel.Send | ssh_honeypot.py:165 | a send is appended to the channel's output and nothing is consumed |
| SshChannel.Channel.Recv | ssh_honeypot.py:155 | a receive takes the client's next chunk; with no chunk left it reports the timeout and sends nothing |
| Ioc.DigitsEnd | ssh_honeypot.py:61 | greedy `[0-9]+`: where the run of digits from a position ends; its contract says it stops at the end or at a non-digit |
| Ioc.DigitsEndRun | ssh_honeypot.py:62 | the greedy `[0-9]+` scan passes over digits only, and over the whole run |
| Ioc.NonSpaceEnd | ssh_honeypot.py:61 | greedy `\S*`: where the run of non-whitespace from a position ends; its contract says it stops at the end or at whitespace |
| Ioc.NonSpaceEndRun | ssh_honeypot.py:62 | `\S*` passes over non-whitespace only, and over all of it |
| Ioc.RunThen | ssh_honeypot.py:61 | `[0-9]+` then the separator (`\.` or `\/`) tried at a position; its contract says a match ends just after the separator and spans at least one digit |
| Ioc.RunThenSound | ssh_honeypot.py:62 | a digit run followed by the separator consists of digits |
| Ioc.RunThenComplete | ssh_honeypot.py:62 | whenever digits and then the separator occur, the greedy scan finds exactly that run; no backtracking is needed |
| Ioc.IpUrlSplit | ssh_honeypot.py:61 | the pattern `[0-9]+(?:\.[0-9]+){3}\/\S*` read at given split points: four non-empty digit runs, dots at the first three points, `/` at the fourth (inside the string), then only non-whitespace |
| Ioc.IsIpUrl | ssh_honeypot.py:61 | the language of the IP-literal pattern: the strings that have such a split |
| Ioc.IpMatchAt | ssh_honeypot.py:61 | the IP-literal pattern tried at one position: greedy digit runs separated by three dots, then `/` and greedy `\S*`; it returns where the match ends. `IpMatchSound` and `IpMatchComplete` prove it matches exactly the pattern's language |
| Ioc.IpMatchSound | ssh_honeypot.py:62-63 | every match is a non-empty IP-literal URL (four digit runs, dots, `/`, non-whitespace) and `\S*` stopped at whitespace or the end |
| Ioc.IpMatchComplete | ssh_honeypot.py:62-63 | wherever an IP-literal URL starts, the pattern matches there and takes at least all of it |
| Ioc.RunsSplit | ssh_honeypot.py:62 | the runs the scanner steps over form the pattern's shape in the command |
| Ioc.SplitInSlice | ssh_honeypot.py:62 | that shape read on the command is the shape of the matched text |
| Ioc.SplitInPlace | ssh_honeypot.py:62 | the shape of a slice read on the whole command |
| Ioc.SplitMatches | ssh_honeypot.py:62 | where the command has the pattern's shape, the scanner matches and `\S*` runs to the end of the non-whitespace |
| Ioc.RunsMatch | ssh_honeypot.py:62 | three dotted digit runs and one slashed run give a match ending where `\S*` stops |
| Ioc.IpMatchStep | ssh_honeypot.py:62 | step lemma for `IpMatchSound` and `RunsMatch`: after a dot, the rest of the pattern is tried just past it |
| Ioc.IpSpans | ssh_honeypot.py:62 | where `re.findall` finds the pattern: try each position in turn, and after a match resume where it ended; `IpSpansInOrder`, `IpSpansMatch` and `IpSpansComplete` state its meaning |
| Ioc.IpSpansInOrder | ssh_honeypot.py:63 | `findall` reports matches in order of occurrence, within the command and without overlap |
| Ioc.IpSpansMatch | ssh_honeypot.py:63 | each reported match is the pattern's match at its start position |
| Ioc.IpSpansComplete | ssh_honeypot.py:63 | no match is skipped: the pattern matches at no position that the reported matches leave uncovered |
| Ioc.IpFindAll | ssh_honeypot.py:62 | the strings `re.findall` returns: the text of each match `IpSpans` finds, one per match and in order, so repeated occurrences are all pushed |
| Ioc.IpUrls | ssh_honeypot.py:62 | `IpFindAll` on the whole command |
| Ioc.IpFindAllShape | ssh_honeypot.py:61-67 | every IP-literal value pushed is non-empty and has the pattern's shape |
| Ioc.IpUrlsShape | ssh_honeypot.py:61-67 | the same, from position 0 of the command |
| Ioc.NonEmptyGroups | ssh_honeypot.py:55-58 | the groups of one generic match that the `if url != ''` test lets through, in order |
| Ioc.GroupUrls | ssh_honeypot.py:52-58 | the non-empty groups of every generic match, match by match, in push order |
| Ioc.Detected | ssh_honeypot.py:52-67 | every value `detect_url` pushes, in push order: the generic groups, then the IP literals |
| Ioc.NonEmptyGroupsMembers | ssh_honeypot.py:56-58 | from one generic match, exactly the non-empty groups are pushed |
| Ioc.GroupUrlsMembers | ssh_honeypot.py:52-58 | from the generic matches, exactly the non-empty groups of all matches are pushed; no empty string is |
| Ioc.DetectedMembers | ssh_honeypot.py:42-67 | a value is pushed iff it is an IP-literal match or a non-empty generic group; no pushed value is empty |
| Ioc.NonEmptyGroupsKeeps | ssh_honeypot.py:64-67 | the IP loop's `!= ''` test never filters anything out |
| Ioc.PushNonEmpty | ssh_honeypot.py:56-58 | the loop leaves the non-empty values on the queue head, the last one pushed on top |
| Ioc.DetectUrl | ssh_honeypot.py:42-67 | the queue gains exactly the detected values: first the generic groups, then the IP literals, each pushed at the head |
| Responder.Lookup | ssh_honeypot.py:82-85 | the table gives no answer iff no entry's prefix starts the command |
| Responder.LookupFirstMatch | ssh_honeypot.py:82-85 | the answer comes from the first entry whose prefix starts the command |
| Responder.CannedLookup | ssh_honeypot.py:82-85 | the table `CannedResponses`, `ls` then `pwd` with their answers, agrees with the `if`/`elif` chain: `ls` first, then `pwd`, otherwise nothing |
| Responder.Response | ssh_honeypot.py:79-91 | the reply is exactly `users.txt\r\n` for `ls…`, `/home/root\r\n` for `pwd…` that does not start with `ls`, and `""` otherwise |
| Responder.HandleCmd | ssh_honeypot.py:69-91 | the whole command is scanned and its values pushed whatever the answer, then exactly one send carries `Response(cmd)` |
| Session.EndsWithCr | ssh_honeypot.py:154 | `command.endswith("\r")`, the inner loop's exit test |
| Session.IsKey | ssh_honeypot.py:158-164 | the five-way test against the up, down, right and left arrow sequences and DEL defined at lines 30-34 |
| Session.Kept | ssh_honeypot.py:158-166 | the received chunks that the key test lets through, in order; `KeptMembers` states its meaning |
| Session.KeptMembers | ssh_honeypot.py:158-166 | the kept chunks are exactly the received chunks that are not key sequences |
| Session.ReadFrom | ssh_honeypot.py:154-166 | a line that completes consumed at least one chunk, unless the text already ended with `"\r"` |
| Session.Accumulated | ssh_honeypot.py:154-166 | the value of `command` after the first m receives: the starting text followed by every non-key chunk among them, in order |
| Session.AccumulatedStep | ssh_honeypot.py:158-166 | the text grows by each non-key chunk in turn |
| Session.ReadFromRest | ssh_honeypot.py:154-155 | a completed line leaves exactly a suffix of the input unread |
| Session.ReadFromEchoed | ssh_honeypot.py:158-166 | a completed line echoed exactly the consumed chunks that are not key sequences |
| Session.ReadFromRaw | ssh_honeypot.py:154-166 | the line is the echoed chunks appended in order, and ends with `"\r"` |
| Session.ReadFromEarliest | ssh_honeypot.py:154 | reading stops at the first chunk after which the text ends with `"\r"` |
| Session.ReadFromClosed | ssh_honeypot.py:155-166 | when the client stops sending, every non-key chunk received was echoed |
| Session.EchoedNotKeys | ssh_honeypot.py:158-165 | no key sequence is ever echoed |
| Session.ShellTranscript | ssh_honeypot.py:149-176 | the reference session, round by round; its contract says it begins with the prompt and never has more chunks left than it was given |
| Session.TranscriptRest | ssh_honeypot.py:152-176 | a session leaves exactly a suffix of the client's chunks unread |
| Session.TranscriptClosed | ssh_honeypot.py:152-166 | step lemma for `Interact`: a round whose read runs out ends the session after the prompt and the echoes |
| Session.TranscriptExit | ssh_honeypot.py:168-174 | step lemma for `Interact`: an `exit` round sends the prompt, the echoes and `"\r\n"`, ends the session and dispatches nothing |
| Session.TranscriptCommand | ssh_honeypot.py:152-176 | step lemma for `Interact`: another round sends the prompt, the echoes, `"\r\n"` and then the answer, pushes what the command holds, and continues |
| Session.NoKeySent | ssh_honeypot.py:152-168 | nothing sent during a session is a key sequence |
| Session.CommandsTrimmed | ssh_honeypot.py:169 | no logged command has trailing whitespace |
| Session.ExitLast | ssh_honeypot.py:172-176 | `exit` can only be the last command, and the session ends by `exit` iff its last command is `exit` |
| Session.Pushes | ssh_honeypot.py:170-176 | everything `handle_cmd` pushes over the logged commands in order, `exit` not dispatched; `PushesMembers` states its meaning |
| Session.PushesMembers | ssh_honeypot.py:172-176 | a value is pushed during a session iff a dispatched (non-`exit`) command holds it; none is empty |
| Session.ReadLine | ssh_honeypot.py:153-166 | the inner loop sends exactly the echoes of `ReadFrom`, returns its line and leaves its rest, or reports the timeout |
| Session.Interact | ssh_honeypot.py:148-176 | the channel ends with the banner and the transcript's sends, the queue with the transcript's pushes at its head, and the loop stops as the transcript says |
| Downloader.Fetched | ssh_honeypot_downloader.py:56-63 | a digest is taken iff the response has status 200 and its body was read to the end; what is hashed is the chunks joined in order |
| Downloader.Download | ssh_honeypot_downloader.py:32-88 | a checked URL changes nothing. An unchecked one is fetched once and recorded with its digest or `''`. No other record changes. A newly recorded digest has its archive. Archives are never replaced, and a new one holds the fetched bytes under their digest and the path's base name |
| Downloader.RecordedIffFetched | ssh_honeypot_downloader.py:56-88 | with a digest that is never empty, as SHA-256's is not, a new record is non-empty iff the body was obtained, and it then names a stored archive whose content hashes to it |
| Downloader.Consistent | ssh_honeypot_downloader.py:40-88 | the store invariant: every archive is keyed by its content's digest, every recorded digest has its archive, every fetched URL is recorded, and no URL was fetched twice |
| Downloader.DownloadConsistent | ssh_honeypot_downloader.py:71-88 | one download keeps the store content-addressed, every recorded digest stored, and no URL fetched twice |
| Downloader.DownloadTwice | ssh_honeypot_downloader.py:40 | downloading the same URL again changes nothing |
| Downloader.SameContentOneArchive | ssh_honeypot_downloader.py:71-75 | two URLs with the same bytes leave one archive, and both records hold its digest |
| Downloader.DownloadAll | ssh_honeypot_downloader.py:91-104 | the poll loop over the popped values, in pop order: an empty value is skipped, every other one downloaded |
| Downloader.DownloadAllSnoc | ssh_honeypot_downloader.py:94-96 | step lemma for `Worker.Run`: each popped value is skipped when empty and downloaded otherwise |
| Downloader.DownloadAllConsistent | ssh_honeypot_downloader.py:91-104 | the store's invariant holds however many values are processed |
| Downloader.DownloadAllMarks | ssh_honeypot_downloader.py:86-88 | afterwards the checked URLs are those checked before plus every non-empty value processed; stored archives are unchanged |
| Downloader.DownloadAllFetchedStep | ssh_honeypot_downloader.py:40 | step lemma for the two below: one more popped value joins the fetch log exactly when it is non-empty and not yet checked |
| Downloader.DownloadAllFetches | ssh_honeypot_downloader.py:40 | the fetch log only grows, and only with processed URLs that are non-empty and were unchecked before the run |
| Downloader.DownloadAllFetchesEvery | ssh_honeypot_downloader.py:40 | conversely, every processed URL that is non-empty and was unchecked before the run is fetched during it |
| Downloader.ReadBody | ssh_honeypot_downloader.py:58-60 | the hash absorbs exactly the bytes that the kept chunks join to |
| Downloader.Worker.DownloadURL | ssh_honeypot_downloader.py:32-88 | the worker's new state is `Download` of its old state |
| Downloader.Worker.Run | ssh_honeypot_downloader.py:91-104 | the worker pops the first k values in pop order, where k is the smaller of `rounds` and the queue length, and its state becomes `DownloadAll` over them |

## Left out

- SSH plumbing is not modelled: Paramiko's transport, host key, banner and authentication, `transport.accept` and the shell-request wait, `log_client_details`, sockets and the thread per connection. These are foreign library calls, waits and concurrency.
- Redis is not modelled as a network service. `download_queue` is a sequence and `checked_urls` a map. Races between workers on the check-then-mark sequence are not modelled.
- The generic URL regular expression is not modelled. Its `findall` result for a command is an input, a function from command to match tuples.
- `requests.get`, HTTP, TLS and the 10-second timeout are not modelled. The outcome of a fetch is an input, a function from URL to outcome.
- SHA-256 and `urlparse(url).path` are functions fixed when the worker is created. A `urlparse` that raises (a malformed IPv6 host) is not modelled; in the source that URL is then never recorded.
- The zip file format, `os.makedirs` and `os.path.isfile` are not modelled. The archive directory is a map from digest to archive.
- Failures after the digest is computed (creating the directory or writing the zip) are not modelled. In the source they record the digest with no archive behind it. `Consistent` assumes this does not happen.
- Bytes and `.decode("utf-8")` are not modelled. Chunks are strings, and a decode failure, which raises and ends the session, is not modelled.
- The size limit of `chan.recv(1024)` is not modelled. A chunk is whatever the client sent.
- SshChannel.Channel.Recv: a client that stops sending is modelled as the timeout exception. An empty chunk from `recv` (end of stream) is not modelled; what then happens depends on how the Paramiko channel reacts to the following `send`.
- Downloader.Worker.Run: runs `rounds` iterations of the source's `while True` loop, because an unbounded loop has no final state to specify.
- Exceptions raised by `lpop` or `hexists` in the poll loop are not modelled. In the source they are swallowed and the loop carries on.
- Logging, `print` and `sleep(1)` are not modelled. None of them affects the state.
- The exception path that closes `transport` is not modelled. After the first receive, that name refers to the received bytes.
