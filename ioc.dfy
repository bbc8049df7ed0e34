/** `detect_url` (ssh_honeypot.py): the indicators of compromise found in a
    command line and pushed onto `download_queue`.

    Two patterns are applied. The IP-literal pattern
    `([0-9]+(?:\.[0-9]+){3}\/\S*)` is modelled exactly, as the left-to-right scan
    that `re.findall` performs. The generic URL pattern is not: its `findall`
    result (one tuple of capture groups per match) is an input, and the model
    keeps what the function does with it. */
module Ioc {
  import opened Lists
  import opened Text
  import opened RedisQueue

  /** Every character of `s[lo..hi]` is in `[0-9]`. */
  ghost predicate Digits(s: string, lo: int, hi: int)
    requires 0 <= lo <= hi <= |s|
  {
    forall k {:trigger IsDigit(s[k])} :: lo <= k < hi ==> IsDigit(s[k])
  }

  /** No character of `s[lo..hi]` is whitespace (the class `\S`). */
  ghost predicate NoSpace(s: string, lo: int, hi: int)
    requires 0 <= lo <= hi <= |s|
  {
    forall k {:trigger IsSpace(s[k])} :: lo <= k < hi ==> !IsSpace(s[k])
  }

  /** `u` is four non-empty runs of digits separated by dots at `p1`, `p2`, `p3`,
      then a slash at `p4`, then only non-whitespace characters. */
  ghost predicate IpUrlSplit(u: string, p1: int, p2: int, p3: int, p4: int)
  {
    && 0 < p1 && p1 + 1 < p2 && p2 + 1 < p3 && p3 + 1 < p4 < |u|
    && u[p1] == '.' && u[p2] == '.' && u[p3] == '.' && u[p4] == '/'
    && Digits(u, 0, p1) && Digits(u, p1 + 1, p2) && Digits(u, p2 + 1, p3) && Digits(u, p3 + 1, p4)
    && NoSpace(u, p4 + 1, |u|)
  }

  /** `u` is a string the IP-literal pattern matches as a whole. */
  ghost predicate IsIpUrl(u: string)
  {
    exists p1, p2, p3, p4 :: IpUrlSplit(u, p1, p2, p3, p4)
  }

  /** The end of the longest run of digits that starts at `i`. */
  function DigitsEnd(s: string, i: nat): (j: nat)
    requires i <= |s|
    ensures i <= j <= |s| && (j == |s| || !IsDigit(s[j]))
    decreases |s| - i
  {
    if i < |s| && IsDigit(s[i]) then DigitsEnd(s, i + 1) else i
  }

  /** `DigitsEnd` stops at the first non-digit: everything it passes over is a
      digit, and it passes over every run of digits starting at `i`. */
  lemma {:induction false} DigitsEndRun(s: string, i: nat, j: nat)
    requires i <= j <= |s|
    ensures Digits(s, i, DigitsEnd(s, i))
    ensures Digits(s, i, j) ==> j <= DigitsEnd(s, i)
    decreases |s| - i
  {
    if i < |s| && IsDigit(s[i]) {
      DigitsEndRun(s, i + 1, if j == i then i + 1 else j);
    }
  }

  /** The end of the longest run of non-whitespace that starts at `i` (`\S*`). */
  function NonSpaceEnd(s: string, i: nat): (j: nat)
    requires i <= |s|
    ensures i <= j <= |s| && (j == |s| || IsSpace(s[j]))
    decreases |s| - i
  {
    if i < |s| && !IsSpace(s[i]) then NonSpaceEnd(s, i + 1) else i
  }

  /** `NonSpaceEnd` passes over non-whitespace only, and over all of it. */
  lemma {:induction false} NonSpaceEndRun(s: string, i: nat, j: nat)
    requires i <= j <= |s|
    ensures NoSpace(s, i, NonSpaceEnd(s, i))
    ensures NoSpace(s, i, j) ==> j <= NonSpaceEnd(s, i)
    decreases |s| - i
  {
    if i < |s| && !IsSpace(s[i]) {
      NonSpaceEndRun(s, i + 1, if j == i then i + 1 else j);
    }
  }

  /** `[0-9]+` immediately followed by `sep`, tried at `i`: the position just
      after `sep`. */
  function RunThen(s: string, i: nat, sep: char): (r: Option<nat>)
    requires i <= |s|
    ensures r.Some? ==> i + 2 <= r.value <= |s| && s[r.value - 1] == sep
  {
    var j := DigitsEnd(s, i);
    if i < j < |s| && s[j] == sep then Some(j + 1) else None
  }

  /** What `RunThen` skips before `sep` is digits. */
  lemma {:induction false} RunThenSound(s: string, i: nat, sep: char)
    requires i <= |s| && RunThen(s, i, sep).Some?
    ensures Digits(s, i, RunThen(s, i, sep).value - 1)
  {
    DigitsEndRun(s, i, i);
  }

  /** The greedy digit run never has to give characters back, because `sep` is
      not a digit: whenever `[0-9]+` then `sep` can match at `i`, `RunThen`
      finds that match, and it is the only one. */
  lemma {:induction false} RunThenComplete(s: string, i: nat, j: nat, sep: char)
    requires i < j < |s| && s[j] == sep && !IsDigit(sep) && Digits(s, i, j)
    ensures RunThen(s, i, sep) == Some(j + 1)
  {
    DigitsEndRun(s, i, j);
  }

  /** The IP-literal pattern tried at `i`, once `dots` of its three dots have
      already been matched: the end of the match, if any. `IpMatchAt(s, i, 0)`
      is the match of the whole pattern that starts at `i`. */
  function IpMatchAt(s: string, i: nat, dots: nat): (r: Option<nat>)
    requires i <= |s| && dots <= 3
    ensures r.Some? ==> i < r.value <= |s|
    decreases 3 - dots
  {
    if dots < 3 then
      match RunThen(s, i, '.')
      case None => None
      case Some(a) => IpMatchAt(s, a, dots + 1)
    else
      match RunThen(s, i, '/')
      case None => None
      case Some(d) => Some(NonSpaceEnd(s, d))
  }

  /** A match found at `i` is a non-empty IP-literal URL, and `\S*` took every
      non-whitespace character after the slash. */
  lemma {:induction false} IpMatchSound(s: string, i: nat)
    requires i <= |s| && IpMatchAt(s, i, 0).Some?
    ensures var j := IpMatchAt(s, i, 0).value;
      i < j <= |s| && IsIpUrl(s[i..j]) && (j == |s| || IsSpace(s[j]))
  {
    var a := RunThen(s, i, '.').value;
    IpMatchStep(s, i, 0);
    var b := RunThen(s, a, '.').value;
    IpMatchStep(s, a, 1);
    var c := RunThen(s, b, '.').value;
    IpMatchStep(s, b, 2);
    var d := RunThen(s, c, '/').value;
    var j := NonSpaceEnd(s, d);
    assert IpMatchAt(s, i, 0) == Some(j);
    RunsSplit(s, i, a, b, c, d);
    SplitInSlice(s, i, j, a - 1, b - 1, c - 1, d - 1);
  }

  /** The runs `IpMatchAt` steps over, read as a split of the command. */
  lemma {:induction false} RunsSplit(s: string, i: nat, a: nat, b: nat, c: nat, d: nat)
    requires i <= |s|
    requires RunThen(s, i, '.') == Some(a) && a <= |s| && RunThen(s, a, '.') == Some(b) && b <= |s|
    requires RunThen(s, b, '.') == Some(c) && c <= |s| && RunThen(s, c, '/') == Some(d) && d <= |s|
    ensures SplitAt(s, i, NonSpaceEnd(s, d), a - 1, b - 1, c - 1, d - 1)
  {
    RunThenSound(s, i, '.');
    RunThenSound(s, a, '.');
    RunThenSound(s, b, '.');
    RunThenSound(s, c, '/');
    NonSpaceEndRun(s, d, d);
  }

  /** A split of the command, read on the slice `s[i..j]`. */
  lemma {:induction false} SplitInSlice(s: string, i: nat, j: nat, d1: nat, d2: nat, d3: nat, d4: nat)
    requires SplitAt(s, i, j, d1, d2, d3, d4)
    ensures IpUrlSplit(s[i..j], d1 - i, d2 - i, d3 - i, d4 - i)
  {
    var u := s[i..j];
    SliceDigits(s, i, j, 0, d1 - i);
    SliceDigits(s, i, j, d1 - i + 1, d2 - i);
    SliceDigits(s, i, j, d2 - i + 1, d3 - i);
    SliceDigits(s, i, j, d3 - i + 1, d4 - i);
    SliceNoSpace(s, i, j, d4 - i + 1, j - i);
    assert u[d1 - i] == s[d1] && u[d2 - i] == s[d2] && u[d3 - i] == s[d3] && u[d4 - i] == s[d4];
  }

  /** `Digits` read on a slice or on the whole command agree. */
  lemma {:induction false} SliceDigits(s: string, i: nat, j: nat, lo: nat, hi: nat)
    requires i <= j <= |s| && lo <= hi <= j - i
    ensures Digits(s[i..j], lo, hi) <==> Digits(s, i + lo, i + hi)
  {
    assert forall k :: lo <= k < hi ==> s[i..j][k] == s[i + k];
    if Digits(s, i + lo, i + hi) {
      forall k | lo <= k < hi ensures IsDigit(s[i..j][k]) {
        assert IsDigit(s[i + k]);
      }
    }
  }

  /** `NoSpace` read on a slice or on the whole command agree. */
  lemma {:induction false} SliceNoSpace(s: string, i: nat, j: nat, lo: nat, hi: nat)
    requires i <= j <= |s| && lo <= hi <= j - i
    ensures NoSpace(s[i..j], lo, hi) <==> NoSpace(s, i + lo, i + hi)
  {
    assert forall k :: lo <= k < hi ==> s[i..j][k] == s[i + k];
    if NoSpace(s, i + lo, i + hi) {
      forall k | lo <= k < hi ensures !IsSpace(s[i..j][k]) {
        assert !IsSpace(s[i + k]);
      }
    }
  }

  /** The pattern matches at `i` whenever some IP-literal URL starts there, and
      it takes at least all of it (the longest one). */
  lemma {:induction false} IpMatchComplete(s: string, i: nat, j: nat)
    requires i <= j <= |s| && IsIpUrl(s[i..j])
    ensures IpMatchAt(s, i, 0).Some? && j <= IpMatchAt(s, i, 0).value
  {
    var p1, p2, p3, p4 :| IpUrlSplit(s[i..j], p1, p2, p3, p4);
    SplitInPlace(s, i, j, p1, p2, p3, p4);
    SplitMatches(s, i, j, i + p1, i + p2, i + p3, i + p4);
    NonSpaceEndRun(s, i + p4 + 1, j);
  }

  /** `IpUrlSplit` read on the whole command rather than on the slice. */
  ghost predicate SplitAt(s: string, i: nat, j: nat, d1: nat, d2: nat, d3: nat, d4: nat)
  {
    && i < d1 && d1 + 1 < d2 && d2 + 1 < d3 && d3 + 1 < d4 < j <= |s|
    && s[d1] == '.' && s[d2] == '.' && s[d3] == '.' && s[d4] == '/'
    && Digits(s, i, d1) && Digits(s, d1 + 1, d2) && Digits(s, d2 + 1, d3) && Digits(s, d3 + 1, d4)
    && NoSpace(s, d4 + 1, j)
  }

  /** A split of the slice `s[i..j]`, read on the whole command. */
  lemma {:induction false} SplitInPlace(s: string, i: nat, j: nat, p1: nat, p2: nat, p3: nat, p4: nat)
    requires i <= j <= |s| && IpUrlSplit(s[i..j], p1, p2, p3, p4)
    ensures SplitAt(s, i, j, i + p1, i + p2, i + p3, i + p4)
  {
    var u := s[i..j];
    SliceDigits(s, i, j, 0, p1);
    SliceDigits(s, i, j, p1 + 1, p2);
    SliceDigits(s, i, j, p2 + 1, p3);
    SliceDigits(s, i, j, p3 + 1, p4);
    SliceNoSpace(s, i, j, p4 + 1, j - i);
    assert s[i + p1] == u[p1] && s[i + p2] == u[p2] && s[i + p3] == u[p3] && s[i + p4] == u[p4];
  }

  /** Where the command holds the pattern's shape, the scanner matches it and
      `\S*` runs to the end of the non-whitespace after the slash. */
  lemma {:induction false} SplitMatches(s: string, i: nat, j: nat, d1: nat, d2: nat, d3: nat, d4: nat)
    requires SplitAt(s, i, j, d1, d2, d3, d4)
    ensures IpMatchAt(s, i, 0) == Some(NonSpaceEnd(s, d4 + 1))
  {
    RunThenComplete(s, i, d1, '.');
    RunThenComplete(s, d1 + 1, d2, '.');
    RunThenComplete(s, d2 + 1, d3, '.');
    RunThenComplete(s, d3 + 1, d4, '/');
    RunsMatch(s, i, d1 + 1, d2 + 1, d3 + 1, d4 + 1);
  }

  /** Three runs of digits ending in a dot and one ending in a slash, read by
      the pattern: the match ends where `\S*` stops. */
  lemma {:induction false} RunsMatch(s: string, i: nat, a: nat, b: nat, c: nat, d: nat)
    requires i <= |s|
    requires RunThen(s, i, '.') == Some(a) && a <= |s| && RunThen(s, a, '.') == Some(b) && b <= |s|
    requires RunThen(s, b, '.') == Some(c) && c <= |s| && RunThen(s, c, '/') == Some(d) && d <= |s|
    ensures IpMatchAt(s, i, 0) == Some(NonSpaceEnd(s, d))
  {
    IpMatchStep(s, i, 0);
    IpMatchStep(s, a, 1);
    IpMatchStep(s, b, 2);
  }

  /** Once a dot has been matched, the rest of the pattern is tried after it. */
  lemma {:induction false} IpMatchStep(s: string, i: nat, dots: nat)
    requires i <= |s| && dots < 3 && RunThen(s, i, '.').Some?
    ensures IpMatchAt(s, i, dots) == IpMatchAt(s, RunThen(s, i, '.').value, dots + 1)
  {
  }

  /** A match of the pattern, as positions in the command. */
  datatype Span = Span(start: nat, end: nat)

  /** No span covers position `k`. */
  ghost predicate Uncovered(spans: seq<Span>, k: nat)
  {
    forall m :: 0 <= m < |spans| ==> !(spans[m].start <= k < spans[m].end)
  }

  /** Where `re.findall` finds the IP-literal pattern from position `i`: try a
      match at each position; after a match, carry on where it ended. */
  function IpSpans(s: string, i: nat): seq<Span>
    requires i <= |s|
    decreases |s| - i
  {
    if i == |s| then []
    else
      match IpMatchAt(s, i, 0)
      case Some(j) => [Span(i, j)] + IpSpans(s, j)
      case None => IpSpans(s, i + 1)
  }

  /** The spans lie within `lo..hi`, each non-empty, each ending before the next
      one starts. */
  ghost predicate InOrder(spans: seq<Span>, lo: nat, hi: nat)
  {
    && (forall m :: 0 <= m < |spans| ==> lo <= spans[m].start < spans[m].end <= hi)
    && (forall m :: 0 < m < |spans| ==> spans[m - 1].end <= spans[m].start)
  }

  /** A span before an ordered list of spans keeps it ordered. */
  lemma {:induction false} InOrderCons(first: Span, rest: seq<Span>, lo: nat, hi: nat)
    requires lo <= first.start < first.end <= hi && InOrder(rest, first.end, hi)
    ensures InOrder([first] + rest, lo, hi)
  {
    var r := [first] + rest;
    forall m | 0 < m < |r|
      ensures r[m] == rest[m - 1] && first.end <= r[m].start
    {
    }
  }

  /** The matches are found in order of occurrence and do not overlap. */
  lemma {:induction false} IpSpansInOrder(s: string, i: nat)
    requires i <= |s|
    ensures InOrder(IpSpans(s, i), i, |s|)
    decreases |s| - i
  {
    if i < |s| {
      var r := IpMatchAt(s, i, 0);
      if r.Some? {
        IpSpansInOrder(s, r.value);
        InOrderCons(Span(i, r.value), IpSpans(s, r.value), i, |s|);
      } else {
        IpSpansInOrder(s, i + 1);
      }
    }
  }

  /** Each match found is the pattern's match at its start position. */
  lemma {:induction false} IpSpansMatch(s: string, i: nat, m: nat)
    requires i <= |s| && m < |IpSpans(s, i)|
    ensures IpSpans(s, i)[m].start <= |s|
    ensures IpMatchAt(s, IpSpans(s, i)[m].start, 0) == Some(IpSpans(s, i)[m].end)
    decreases |s| - i
  {
    var r := IpMatchAt(s, i, 0);
    if r.Some? {
      var j := r.value;
      if m > 0 {
        IpSpansMatch(s, j, m - 1);
      }
    } else {
      IpSpansMatch(s, i + 1, m);
    }
  }

  /** Nothing is skipped: no match of the pattern starts at a position that
      none of the found matches covers. */
  lemma {:induction false} IpSpansComplete(s: string, i: nat, k: nat)
    requires i <= k < |s| && Uncovered(IpSpans(s, i), k)
    ensures IpMatchAt(s, k, 0) == None
    decreases |s| - i
  {
    var m := IpMatchAt(s, i, 0);
    if m.Some? {
      var j := m.value;
      var rest := IpSpans(s, j);
      assert IpSpans(s, i) == [Span(i, j)] + rest;
      assert !(i <= k < j) by { assert IpSpans(s, i)[0] == Span(i, j); }
      UncoveredTail(Span(i, j), rest, k);
      IpSpansComplete(s, j, k);
    } else if k > i {
      IpSpansComplete(s, i + 1, k);
    }
  }

  /** A position no span covers is not covered by the later spans either. */
  lemma {:induction false} UncoveredTail(first: Span, rest: seq<Span>, k: nat)
    requires Uncovered([first] + rest, k)
    ensures Uncovered(rest, k)
  {
    forall m | 0 <= m < |rest|
      ensures !(rest[m].start <= k < rest[m].end)
    {
      assert rest[m] == ([first] + rest)[m + 1];
    }
  }

  /** The texts of `spans` in `s`. */
  function SpanTexts(s: string, spans: seq<Span>): seq<string>
    requires forall m :: 0 <= m < |spans| ==> spans[m].start <= spans[m].end <= |s|
  {
    seq(|spans|, m requires 0 <= m < |spans| => s[spans[m].start..spans[m].end])
  }

  /** `re.findall(ip_regex, command[i..])`: the text of every match found, one
      string per match, so duplicates in the command give duplicates here. */
  function IpFindAll(s: string, i: nat): seq<string>
    requires i <= |s|
  {
    IpSpansInOrder(s, i);
    SpanTexts(s, IpSpans(s, i))
  }

  /** The strings `re.findall(ip_regex, command)` returns. */
  function IpUrls(command: string): seq<string>
  {
    IpFindAll(command, 0)
  }

  /** Every IP-literal match is a non-empty string of the pattern's shape. */
  lemma IpFindAllShape(s: string, i: nat)
    requires i <= |s|
    ensures forall u :: u in IpFindAll(s, i) ==> u != "" && IsIpUrl(u)
  {
    var spans := IpSpans(s, i);
    var texts := IpFindAll(s, i);
    forall m | 0 <= m < |texts|
      ensures texts[m] != "" && IsIpUrl(texts[m])
    {
      IpSpansMatch(s, i, m);
      IpMatchSound(s, spans[m].start);
    }
  }

  /** `IpFindAllShape` for the whole command. */
  lemma {:induction false} IpUrlsShape(command: string)
    ensures forall u :: u in IpUrls(command) ==> u != "" && IsIpUrl(u)
  {
    IpFindAllShape(command, 0);
  }

  /** The non-empty groups of one generic match, in order. */
  function NonEmptyGroups(groups: seq<string>): seq<string>
  {
    if groups == [] then []
    else
      var last := groups[|groups| - 1];
      NonEmptyGroups(groups[..|groups| - 1]) + (if last != "" then [last] else [])
  }

  /** Every non-empty group of every generic match, match by match. */
  function GroupUrls(matches: seq<seq<string>>): seq<string>
  {
    if matches == [] then []
    else GroupUrls(matches[..|matches| - 1]) + NonEmptyGroups(matches[|matches| - 1])
  }

  /** The values kept from one match are exactly its non-empty groups. */
  lemma {:induction false} NonEmptyGroupsMembers(groups: seq<string>)
    ensures forall u :: u in NonEmptyGroups(groups) <==> u in groups && u != ""
  {
    if groups != [] {
      NonEmptyGroupsMembers(groups[..|groups| - 1]);
      assert groups == groups[..|groups| - 1] + [groups[|groups| - 1]];
    }
  }

  /** What is pushed from the generic matches is exactly the non-empty capture
      groups: every non-empty group of every match, and no empty string. */
  lemma {:induction false} GroupUrlsMembers(matches: seq<seq<string>>)
    ensures forall u :: u in GroupUrls(matches) <==>
      u != "" && exists m :: 0 <= m < |matches| && u in matches[m]
  {
    if matches != [] {
      var n := |matches| - 1;
      GroupUrlsMembers(matches[..n]);
      NonEmptyGroupsMembers(matches[n]);
      forall u | u != "" && exists m :: 0 <= m < |matches| && u in matches[m]
        ensures u in GroupUrls(matches)
      {
        var m :| 0 <= m < |matches| && u in matches[m];
        if m < n {
          assert matches[..n][m] == matches[m];
        }
      }
      forall u | u in GroupUrls(matches)
        ensures exists m :: 0 <= m < |matches| && u in matches[m]
      {
        if u in GroupUrls(matches[..n]) {
          var m :| 0 <= m < n && u in matches[..n][m];
          assert matches[m] == matches[..n][m];
        } else {
          assert u in matches[n];
        }
      }
    }
  }

  /** Everything `detect_url` pushes for `command`, in push order: first the
      generic groups, then the IP literals. */
  function Detected(command: string, matches: seq<seq<string>>): seq<string>
  {
    GroupUrls(matches) + IpUrls(command)
  }

  /** Every pushed value is non-empty, and is a non-empty capture group of a
      generic match or an IP-literal URL; every such group and every IP-literal
      match is pushed. */
  lemma {:induction false} DetectedMembers(command: string, matches: seq<seq<string>>)
    ensures forall u :: u in Detected(command, matches) <==>
      (u in IpUrls(command) || (u != "" && exists m :: 0 <= m < |matches| && u in matches[m]))
    ensures forall u :: u in Detected(command, matches) ==> u != ""
  {
    GroupUrlsMembers(matches);
    IpUrlsShape(command);
  }

  /** The inner loop `detect_url` runs twice: `lpush` every non-empty value of
      `values`, in order. */
  method PushNonEmpty(values: seq<string>, q: DownloadQueue)
    modifies q
    ensures q.items == Reversed(NonEmptyGroups(values)) + old(q.items)
  {
    for j := 0 to |values|
      invariant q.items == Reversed(NonEmptyGroups(values[..j])) + old(q.items)
    {
      var url := values[j];
      NonEmptyGroupsSnoc(values, j);
      if url != "" {
        ghost var before := NonEmptyGroups(values[..j]);
        q.Push(url);
        ReversedSnoc(before, url);
        AppendAssoc([url], Reversed(before), old(q.items));
      } else {
        assert NonEmptyGroups(values[..j]) + [] == NonEmptyGroups(values[..j]);
      }
    }
    assert values[..|values|] == values;
  }

  /** One more group: kept when non-empty. */
  lemma NonEmptyGroupsSnoc(values: seq<string>, j: nat)
    requires j < |values|
    ensures NonEmptyGroups(values[..j + 1])
      == NonEmptyGroups(values[..j]) + (if values[j] != "" then [values[j]] else [])
  {
    assert values[..j + 1][..j] == values[..j] && values[..j + 1][j] == values[j];
  }

  /** Filtering out empty strings leaves a list without empty strings as it is. */
  lemma {:induction false} NonEmptyGroupsKeeps(values: seq<string>)
    requires forall u :: u in values ==> u != ""
    ensures NonEmptyGroups(values) == values
  {
    if values != [] {
      var n := |values| - 1;
      assert forall u :: u in values[..n] ==> u in values;
      NonEmptyGroupsKeeps(values[..n]);
      assert values[n] in values;
      assert values == values[..n] + [values[n]];
    }
  }

  /** One more match: its non-empty groups follow those of the earlier ones. */
  lemma {:induction false} GroupUrlsSnoc(matches: seq<seq<string>>, i: nat)
    requires i < |matches|
    ensures GroupUrls(matches[..i + 1]) == GroupUrls(matches[..i]) + NonEmptyGroups(matches[i])
  {
    assert matches[..i + 1][..i] == matches[..i] && matches[..i + 1][i] == matches[i];
  }

  /** Pushing `a` and then `b` onto `items` leaves the queue `a + b` would. */
  lemma {:induction false} PushedAfter(a: seq<string>, b: seq<string>, items: seq<string>)
    ensures Reversed(b) + (Reversed(a) + items) == Reversed(a + b) + items
  {
    ReversedConcat(a, b);
  }

  /** `detect_url(command, client_ip)`, with `matches` standing for
      `re.findall(regex, command)` of the generic URL pattern. Every value is
      `lpush`ed, so the queue ends up with the last one at its head. */
  method DetectUrl(command: string, matches: seq<seq<string>>, q: DownloadQueue)
    modifies q
    ensures q.items == Reversed(Detected(command, matches)) + old(q.items)
  {
    for i := 0 to |matches|
      invariant q.items == Reversed(GroupUrls(matches[..i])) + old(q.items)
    {
      ghost var before := GroupUrls(matches[..i]);
      PushNonEmpty(matches[i], q);
      GroupUrlsSnoc(matches, i);
      PushedAfter(before, NonEmptyGroups(matches[i]), old(q.items));
    }
    assert matches[..|matches|] == matches;
    ghost var groupUrls := GroupUrls(matches);
    assert q.items == Reversed(groupUrls) + old(q.items);
    var ipUrls := IpUrls(command);
    IpUrlsShape(command);
    NonEmptyGroupsKeeps(ipUrls);
    PushNonEmpty(ipUrls, q);
    PushedAfter(groupUrls, ipUrls, old(q.items));
    assert Detected(command, matches) == groupUrls + ipUrls;
  }
}
