/** The Redis list `download_queue` shared by the honeypot (producer) and the
    downloader (consumer). Both ends use the HEAD of the list: `lpush` inserts
    there and `lpop` removes from there, so the queue is last-in-first-out. */
module RedisQueue {
  import opened Lists

  class DownloadQueue {
    /** The list, head first. */
    var items: seq<string>

    constructor (initial: seq<string>)
      ensures items == initial
    {
      items := initial;
    }

    /** `r.lpush("download_queue", v)` */
    method Push(v: string)
      modifies this
      ensures items == [v] + old(items)
    {
      items := [v] + items;
    }

    /** `r.lpop("download_queue")`: the head, or `None` when the list is empty. */
    method Pop() returns (v: Option<string>)
      modifies this
      ensures old(items) == [] ==> v == None && items == []
      ensures old(items) != [] ==> v == Some(old(items)[0]) && items == old(items)[1..]
    {
      if items == [] {
        v := None;
      } else {
        v := Some(items[0]);
        items := items[1..];
      }
    }
  }

  /** Values pushed one by one, in the order of `vs`, come back from `lpop` in
      the reverse order: the last value pushed is popped first. */
  lemma LastPushedPoppedFirst(vs: seq<string>, items: seq<string>, k: nat)
    requires k < |vs|
    ensures |Reversed(vs) + items| == |vs| + |items|
    ensures (Reversed(vs) + items)[k] == vs[|vs| - 1 - k]
  {
    ReversedAt(vs, k);
  }
}
