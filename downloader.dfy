/** The download worker (ssh_honeypot_downloader.py): pop URLs off
    `download_queue` and fetch each one at most once, keeping a content-addressed
    store of what was fetched.

    Redis's `checked_urls` hash is a map from URL to digest, the
    `uploaded_files` directory a map from digest to archive. The network is a
    function from URL to the outcome of `requests.get`; SHA-256 (`hexdigest`) and
    the path part of `urlparse` are functions fixed when the worker is created. */
module Downloader {
  import opened Lists
  import opened Text
  import opened RedisQueue

  newtype byte = x: int | 0 <= x < 256

  /** How iterating over a response body ended: after all its chunks, or with
      an exception after the chunks listed. */
  datatype Body = Complete(chunks: seq<seq<byte>>) | Interrupted(chunks: seq<seq<byte>>)

  /** What `requests.get(url, ...)` gives: an exception, or a response. */
  datatype FetchOutcome = RequestFailed | Reply(status: int, body: Body)

  /** One zip archive of `uploaded_files`: the single member's name and bytes. */
  datatype Archive = Archive(name: string, content: seq<byte>)

  /** The worker's state: `checked_urls`, the stored archives by digest, and every
      URL handed to `requests.get`, in order. */
  datatype Store = Store(checked: map<string, string>, archives: map<string, Archive>, fetched: seq<string>)

  /** The bytes whose digest is recorded: all the chunks of a complete status-200
      body, joined in order; nothing otherwise. */
  function Fetched(outcome: FetchOutcome): (r: Option<seq<byte>>)
    ensures r.Some? <==> outcome.Reply? && outcome.status == 200 && outcome.body.Complete?
    ensures r.Some? ==> r.value == Flatten(outcome.body.chunks)
  {
    match outcome
    case Reply(200, Complete(chunks)) => Some(Flatten(chunks))
    case _ => None
  }

  /** `downloadURL(url)` on the state `s`, when `requests.get(url)` gives
      `outcome`. */
  function Download(s: Store, url: string, outcome: FetchOutcome,
                    hexdigest: seq<byte> -> string, urlPath: string -> string): (r: Store)
    // an already checked URL is neither fetched nor recorded again
    ensures url in s.checked ==> r == s
    // otherwise it is fetched once and recorded, whatever the outcome
    ensures url !in s.checked ==> r.fetched == s.fetched + [url]
    ensures r.checked.Keys == s.checked.Keys + {url}
    ensures url !in s.checked ==>
      r.checked[url] == (if Fetched(outcome).Some? then hexdigest(Fetched(outcome).value) else "")
    // no other URL's record changes
    ensures forall u :: u in s.checked && u != url ==> r.checked[u] == s.checked[u]
    // a newly recorded digest has its archive, written now or earlier
    ensures url !in s.checked && Fetched(outcome).Some? ==> hexdigest(Fetched(outcome).value) in r.archives
    // archives are written once and never replaced
    ensures forall d :: d in s.archives ==> d in r.archives && r.archives[d] == s.archives[d]
    ensures forall d :: d in r.archives && d !in s.archives ==>
      && url !in s.checked && Fetched(outcome).Some?
      && d == hexdigest(Fetched(outcome).value)
      && r.archives[d] == Archive(BaseName(urlPath(url)), Fetched(outcome).value)
  {
    if url in s.checked then s
    else
      var fetched := s.fetched + [url];
      match Fetched(outcome)
      case None => Store(s.checked[url := ""], s.archives, fetched)
      case Some(content) =>
        var digest := hexdigest(content);
        var archives :=
          if digest in s.archives then s.archives
          else s.archives[digest := Archive(BaseName(urlPath(url)), content)];
        Store(s.checked[url := digest], archives, fetched)
  }

  /** With a digest that is never empty, as a SHA-256 hex digest is not, a
      download records a non-empty value exactly when it obtained the body, and
      that record names a stored archive holding that body. */
  lemma {:induction false} RecordedIffFetched(s: Store, url: string, outcome: FetchOutcome,
                                              hexdigest: seq<byte> -> string, urlPath: string -> string)
    requires url !in s.checked
    requires forall b :: hexdigest(b) != ""
    requires forall d :: d in s.archives ==> hexdigest(s.archives[d].content) == d
    ensures var r := Download(s, url, outcome, hexdigest, urlPath);
      && (r.checked[url] != "" <==> Fetched(outcome).Some?)
      && (r.checked[url] != "" ==>
            r.checked[url] in r.archives && hexdigest(r.archives[r.checked[url]].content) == r.checked[url])
  {
    var r := Download(s, url, outcome, hexdigest, urlPath);
    if Fetched(outcome).Some? {
      var d := hexdigest(Fetched(outcome).value);
      assert r.checked[url] == d != "";
    }
  }

  /** The invariant the worker keeps: every archive is stored under the digest of
      its own content, every recorded digest has its archive, every fetched URL
      is recorded, and no URL was fetched twice. */
  ghost predicate Consistent(s: Store, hexdigest: seq<byte> -> string)
  {
    && (forall d :: d in s.archives ==> hexdigest(s.archives[d].content) == d)
    && (forall u :: u in s.checked && s.checked[u] != "" ==> s.checked[u] in s.archives)
    && (forall i :: 0 <= i < |s.fetched| ==> s.fetched[i] in s.checked)
    && (forall i, j :: 0 <= i < j < |s.fetched| ==> s.fetched[i] != s.fetched[j])
  }

  lemma {:induction false} DownloadConsistent(s: Store, url: string, outcome: FetchOutcome,
                                              hexdigest: seq<byte> -> string, urlPath: string -> string)
    requires Consistent(s, hexdigest)
    ensures Consistent(Download(s, url, outcome, hexdigest, urlPath), hexdigest)
  {
    var r := Download(s, url, outcome, hexdigest, urlPath);
    if url !in s.checked {
      forall i | 0 <= i < |r.fetched|
        ensures r.fetched[i] in r.checked
      {
        if i < |s.fetched| {
          assert r.fetched[i] == s.fetched[i];
        }
      }
      forall i, j | 0 <= i < j < |r.fetched|
        ensures r.fetched[i] != r.fetched[j]
      {
        assert r.fetched[i] == s.fetched[i];
        if j == |s.fetched| {
          assert s.fetched[i] in s.checked;
        } else {
          assert r.fetched[j] == s.fetched[j];
        }
      }
    }
  }

  /** Running `downloadURL` twice on the same URL is running it once: the
      second call sees the URL checked and fetches nothing. */
  lemma {:induction false} DownloadTwice(s: Store, url: string, first: FetchOutcome, second: FetchOutcome,
                                         hexdigest: seq<byte> -> string, urlPath: string -> string)
    ensures var once := Download(s, url, first, hexdigest, urlPath);
      Download(once, url, second, hexdigest, urlPath) == once
  {
    var once := Download(s, url, first, hexdigest, urlPath);
    assert url in once.checked;
  }

  /** Two URLs serving the same bytes leave one archive: the second download
      records the same digest and leaves the archives as the first left them. */
  lemma {:induction false} SameContentOneArchive(s: Store, u1: string, o1: FetchOutcome, u2: string, o2: FetchOutcome,
                                                 hexdigest: seq<byte> -> string, urlPath: string -> string)
    requires u1 != u2 && u1 !in s.checked && u2 !in s.checked
    requires Fetched(o1).Some? && Fetched(o2) == Fetched(o1)
    ensures var one := Download(s, u1, o1, hexdigest, urlPath);
      var two := Download(one, u2, o2, hexdigest, urlPath);
      && two.archives == one.archives
      && two.checked[u1] == two.checked[u2] == hexdigest(Fetched(o1).value)
      && two.checked[u1] in two.archives
  {
    var one := Download(s, u1, o1, hexdigest, urlPath);
    assert hexdigest(Fetched(o1).value) in one.archives;
  }

  /** What the poll loop does with the values it pops, in pop order: an empty
      value is skipped, every other one downloaded. */
  function DownloadAll(s: Store, urls: seq<string>, net: string -> FetchOutcome,
                       hexdigest: seq<byte> -> string, urlPath: string -> string): Store
  {
    if urls == [] then s
    else
      var before := DownloadAll(s, urls[..|urls| - 1], net, hexdigest, urlPath);
      var url := urls[|urls| - 1];
      if url == "" then before else Download(before, url, net(url), hexdigest, urlPath)
  }

  /** One more URL popped: it is skipped when empty and downloaded otherwise. */
  lemma DownloadAllSnoc(s: Store, urls: seq<string>, k: nat, net: string -> FetchOutcome,
                        hexdigest: seq<byte> -> string, urlPath: string -> string)
    requires k < |urls|
    ensures DownloadAll(s, urls[..k + 1], net, hexdigest, urlPath)
      == var before := DownloadAll(s, urls[..k], net, hexdigest, urlPath);
         if urls[k] == "" then before else Download(before, urls[k], net(urls[k]), hexdigest, urlPath)
  {
    assert urls[..k + 1][..k] == urls[..k] && urls[..k + 1][k] == urls[k];
  }

  /** The worker's invariant holds however many URLs it processes: in particular
      no URL is ever fetched twice, and every stored archive hashes to its key. */
  lemma {:induction false} DownloadAllConsistent(s: Store, urls: seq<string>, net: string -> FetchOutcome,
                                                 hexdigest: seq<byte> -> string, urlPath: string -> string)
    requires Consistent(s, hexdigest)
    ensures Consistent(DownloadAll(s, urls, net, hexdigest, urlPath), hexdigest)
  {
    if urls != [] {
      var before := DownloadAll(s, urls[..|urls| - 1], net, hexdigest, urlPath);
      DownloadAllConsistent(s, urls[..|urls| - 1], net, hexdigest, urlPath);
      var url := urls[|urls| - 1];
      if url != "" {
        DownloadConsistent(before, url, net(url), hexdigest, urlPath);
      }
    }
  }

  /** Afterwards the checked URLs are those checked before plus every non-empty
      value processed, and nothing else; archives already stored are unchanged. */
  lemma {:induction false} DownloadAllMarks(s: Store, urls: seq<string>, net: string -> FetchOutcome,
                                            hexdigest: seq<byte> -> string, urlPath: string -> string)
    ensures var r := DownloadAll(s, urls, net, hexdigest, urlPath);
      && (forall u :: u in r.checked <==> u in s.checked || (u in urls && u != ""))
      && (forall d :: d in s.archives ==> d in r.archives && r.archives[d] == s.archives[d])
  {
    if urls != [] {
      var init := urls[..|urls| - 1];
      DownloadAllMarks(s, init, net, hexdigest, urlPath);
      assert urls == init + [urls[|urls| - 1]];
    }
  }

  /** One more popped value adds itself to the fetch log exactly when it is
      non-empty and not yet checked. */
  lemma DownloadAllFetchedStep(s: Store, urls: seq<string>, net: string -> FetchOutcome,
                               hexdigest: seq<byte> -> string, urlPath: string -> string)
    requires urls != []
    ensures var before := DownloadAll(s, urls[..|urls| - 1], net, hexdigest, urlPath);
      var url := urls[|urls| - 1];
      DownloadAll(s, urls, net, hexdigest, urlPath).fetched
        == before.fetched + (if url != "" && url !in before.checked then [url] else [])
  {
  }

  /** A URL is fetched during the run only if it was processed, is not empty and
      had not been checked before the run. */
  lemma {:induction false} DownloadAllFetches(s: Store, urls: seq<string>, net: string -> FetchOutcome,
                                              hexdigest: seq<byte> -> string, urlPath: string -> string)
    ensures var r := DownloadAll(s, urls, net, hexdigest, urlPath);
      && |s.fetched| <= |r.fetched| && r.fetched[..|s.fetched|] == s.fetched
      && (forall i :: |s.fetched| <= i < |r.fetched| ==> r.fetched[i] in urls && r.fetched[i] != "" && r.fetched[i] !in s.checked)
  {
    if urls != [] {
      var init := urls[..|urls| - 1];
      var url := urls[|urls| - 1];
      var before := DownloadAll(s, init, net, hexdigest, urlPath);
      DownloadAllFetches(s, init, net, hexdigest, urlPath);
      DownloadAllMarks(s, init, net, hexdigest, urlPath);
      DownloadAllFetchedStep(s, urls, net, hexdigest, urlPath);
      var r := DownloadAll(s, urls, net, hexdigest, urlPath);
      forall i | |s.fetched| <= i < |r.fetched|
        ensures r.fetched[i] in urls && r.fetched[i] != "" && r.fetched[i] !in s.checked
      {
        if i < |before.fetched| {
          assert r.fetched[i] == before.fetched[i];
          assert before.fetched[i] in init;
        } else {
          assert r.fetched[i] == url;
        }
      }
    }
  }

  /** Conversely, every non-empty value processed that had not been checked
      before the run is fetched during it. */
  lemma {:induction false} DownloadAllFetchesEvery(s: Store, urls: seq<string>, net: string -> FetchOutcome,
                                                   hexdigest: seq<byte> -> string, urlPath: string -> string)
    ensures var r := DownloadAll(s, urls, net, hexdigest, urlPath);
      && |s.fetched| <= |r.fetched|
      && (forall u :: u in urls && u != "" && u !in s.checked ==> u in r.fetched[|s.fetched|..])
  {
    if urls != [] {
      var init := urls[..|urls| - 1];
      var url := urls[|urls| - 1];
      var before := DownloadAll(s, init, net, hexdigest, urlPath);
      DownloadAllFetchesEvery(s, init, net, hexdigest, urlPath);
      DownloadAllMarks(s, init, net, hexdigest, urlPath);
      DownloadAllFetchedStep(s, urls, net, hexdigest, urlPath);
      var r := DownloadAll(s, urls, net, hexdigest, urlPath);
      assert r.fetched[..|before.fetched|] == before.fetched;
      forall u | u in urls && u != "" && u !in s.checked
        ensures u in r.fetched[|s.fetched|..]
      {
        assert urls == init + [url];
        if u in init {
          var i :| |s.fetched| <= i < |before.fetched| && before.fetched[i] == u;
          assert r.fetched[i] == u;
        } else {
          assert u == url && url !in before.checked;
          assert r.fetched[|before.fetched|] == u;
        }
      }
    }
  }

  /** The `iter_content` loop of `downloadURL`: each chunk is fed to the hash and
      kept. The hash has absorbed exactly the bytes the kept chunks join to, so
      the archive written from them holds what was hashed. */
  method ReadBody(body: seq<seq<byte>>) returns (chunks: seq<seq<byte>>, hashed: seq<byte>)
    ensures chunks == body && hashed == Flatten(body)
  {
    chunks := [];
    hashed := [];
    for i := 0 to |body|
      invariant chunks == body[..i] && hashed == Flatten(chunks)
    {
      hashed := hashed + body[i];
      FlattenSnoc(chunks, body[i]);
      chunks := chunks + [body[i]];
      assert body[..i + 1] == body[..i] + [body[i]];
    }
    assert body[..|body|] == body;
  }

  /** The worker process: its Redis hash, its archive directory, and the
      requests it made. */
  class Worker {
    var checked: map<string, string>
    var archives: map<string, Archive>
    var fetched: seq<string>
    const hexdigest: seq<byte> -> string
    const urlPath: string -> string

    constructor (checkedUrls: map<string, string>, stored: map<string, Archive>,
                 hexdigest: seq<byte> -> string, urlPath: string -> string)
      ensures State() == Store(checkedUrls, stored, [])
      ensures this.hexdigest == hexdigest && this.urlPath == urlPath
    {
      checked := checkedUrls;
      archives := stored;
      fetched := [];
      this.hexdigest := hexdigest;
      this.urlPath := urlPath;
    }

    function State(): Store
      reads this
    {
      Store(checked, archives, fetched)
    }

    /** `downloadURL(url)`, with `net(url)` standing for `requests.get(url)`. */
    method DownloadURL(url: string, net: string -> FetchOutcome)
      modifies this
      ensures State() == Download(old(State()), url, net(url), hexdigest, urlPath)
    {
      if url !in checked {
        var fileName := BaseName(urlPath(url));
        var digest := "";
        fetched := fetched + [url];
        var response := net(url);
        if response.Reply? && response.status == 200 {
          var chunks, hashed := ReadBody(response.body.chunks);
          if response.body.Complete? {
            digest := hexdigest(hashed);
            if digest !in archives {
              archives := archives[digest := Archive(fileName, Flatten(chunks))];
            }
          }
        }
        checked := checked[url := digest];
      }
    }

    /** The poll loop, for `rounds` iterations of `while True`: pop the head of
        `download_queue` and download it unless the pop gave nothing or an empty
        string. The queue loses its first `k` values, `k` the smaller of
        `rounds` and its length, and those are processed in pop order. */
    method Run(q: DownloadQueue, net: string -> FetchOutcome, rounds: nat)
      modifies this, q
      ensures var k := if rounds < |old(q.items)| then rounds else |old(q.items)|;
        && q.items == old(q.items)[k..]
        && State() == DownloadAll(old(State()), old(q.items)[..k], net, hexdigest, urlPath)
    {
      ghost var items := q.items;
      ghost var start := State();
      var round := 0;
      while round < rounds
        invariant round <= rounds
        invariant var k := if round < |items| then round else |items|;
          && q.items == items[k..]
          && State() == DownloadAll(start, items[..k], net, hexdigest, urlPath)
      {
        ghost var k := if round < |items| then round else |items|;
        var next := q.Pop();
        if next.Some? {
          DownloadAllSnoc(start, items, k, net, hexdigest, urlPath);
          assert items[k + 1..] == items[k..][1..];
          if next.value != "" {
            DownloadURL(next.value, net);
          }
        }
        round := round + 1;
      }
    }
  }
}
