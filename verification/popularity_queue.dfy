/**
  The offline queue of popularity submissions, kept in local storage under
  `pangrum-popularity-queue`. Submissions made while offline are appended;
  processing later posts each one that is less than a day old and keeps only
  those whose post failed.
 */
module PopularityQueue {
  import opened Seqs

  const QueueKey: string := "pangrum-popularity-queue"

  /** 24 hours, in milliseconds. */
  const MaxAgeMs: int := 24 * 60 * 60 * 1000

  datatype QueuedSubmission = QueuedSubmission(
    lang: string, date: string, wordHash: string, isFirstWord: bool, timestamp: int)

  /** The stored text under the queue key, as `JSON.parse` sees it. */
  datatype Stored = NotStored | Unparseable | Items(queue: seq<QueuedSubmission>)

  /** `getQueue`: the stored list, or `[]` when nothing (or nothing readable) is stored. */
  function GetQueue(s: Stored): (q: seq<QueuedSubmission>)
    ensures s.Items? ==> q == s.queue
    ensures !s.Items? ==> q == []
  {
    if s.Items? then s.queue else []
  }

  /** `queueSubmission`: append one submission stamped with `now`, and save. */
  function QueueSubmission(s: Stored, lang: string, date: string, wordHash: string, isFirstWord: bool, now: int): (r: Stored)
    ensures r.Items?
    ensures |GetQueue(r)| == |GetQueue(s)| + 1
    ensures GetQueue(r)[..|GetQueue(s)|] == GetQueue(s)
    ensures GetQueue(r)[|GetQueue(s)|] == QueuedSubmission(lang, date, wordHash, isFirstWord, now)
  {
    Items(GetQueue(s) + [QueuedSubmission(lang, date, wordHash, isFirstWord, now)])
  }

  /** An item that is a day old or older is dropped unsent. */
  predicate Expired(item: QueuedSubmission, now: int) {
    now - item.timestamp >= MaxAgeMs
  }

  /** One POST to the popularity endpoint. */
  datatype Post = Post(lang: string, date: string, wordHash: string, isFirstWord: bool)

  function PostOf(item: QueuedSubmission): Post {
    Post(item.lang, item.date, item.wordHash, item.isFirstWord)
  }

  /**
    The result of processing: the posts made, in order, and the queue that is
    saved afterwards (none when the queue was empty and nothing was written).
   */
  datatype Processed = Processed(posts: seq<Post>, saved: Option<seq<QueuedSubmission>>)

  /** The items `processQueue` attempts to post. */
  function Fresh(now: int): QueuedSubmission -> bool {
    x => !Expired(x, now)
  }

  function Stale(now: int): QueuedSubmission -> bool {
    x => Expired(x, now)
  }

  /**
    The loop of `processQueue` over `items`; `delivered[i]` says whether the
    post of `items[i]` succeeded (it is not consulted for expired items).
   */
  function Process(items: seq<QueuedSubmission>, delivered: seq<bool>, now: int): (r: (seq<Post>, seq<QueuedSubmission>))
    requires |delivered| == |items|
    ensures IsSubsequence(r.1, items)
    ensures forall x | x in r.1 :: !Expired(x, now)
    decreases |items|
  {
    if |items| == 0 then ([], [])
    else
      var n := |items| - 1;
      var init := Process(items[..n], delivered[..n], now);
      var item := items[n];
      if Expired(item, now) then
        init
      else if delivered[n] then
        (init.0 + [PostOf(item)], init.1)
      else
        (init.0 + [PostOf(item)], init.1 + [item])
  }

  /** `processQueue`: nothing happens for an empty queue; otherwise post and save what failed. */
  function ProcessQueue(s: Stored, delivered: seq<bool>, now: int): (p: Processed)
    requires |delivered| == |GetQueue(s)|
    ensures p.saved.None? <==> |GetQueue(s)| == 0
    ensures p.saved.Some? ==> IsSubsequence(p.saved.value, GetQueue(s))
    ensures p.saved.Some? ==> forall x | x in p.saved.value :: !Expired(x, now)
  {
    var q := GetQueue(s);
    if |q| == 0 then Processed([], None)
    else
      var r := Process(q, delivered, now);
      Processed(r.0, Some(r.1))
  }

  /** Each item with the outcome of its post. */
  function Zip(items: seq<QueuedSubmission>, delivered: seq<bool>): (z: seq<(QueuedSubmission, bool)>)
    requires |delivered| == |items|
    ensures |z| == |items|
  {
    seq(|items|, i requires 0 <= i < |items| => (items[i], delivered[i]))
  }

  /** An attempted post that failed. */
  function Failed(now: int): ((QueuedSubmission, bool)) -> bool {
    (p: (QueuedSubmission, bool)) => !Expired(p.0, now) && !p.1
  }

  function ItemOf(p: (QueuedSubmission, bool)): QueuedSubmission {
    p.0
  }

  /**
    The posts are exactly the unexpired items in queue order, and the saved
    queue is exactly the unexpired items whose post failed, in queue order.
   */
  lemma ProcessSpec(items: seq<QueuedSubmission>, delivered: seq<bool>, now: int)
    requires |delivered| == |items|
    ensures Process(items, delivered, now).0 == Map(Filter(items, Fresh(now)), PostOf)
    ensures Process(items, delivered, now).1 == Map(Filter(Zip(items, delivered), Failed(now)), ItemOf)
  {
    ProcessPosts(items, delivered, now);
    ProcessKept(items, delivered, now);
  }

  lemma {:induction false} ProcessPosts(items: seq<QueuedSubmission>, delivered: seq<bool>, now: int)
    requires |delivered| == |items|
    ensures Process(items, delivered, now).0 == Map(Filter(items, Fresh(now)), PostOf)
    decreases |items|
  {
    if |items| > 0 {
      var n := |items| - 1;
      ProcessPosts(items[..n], delivered[..n], now);
      var init := Process(items[..n], delivered[..n], now).0;
      assert Process(items, delivered, now).0
             == if Expired(items[n], now) then init else init + [PostOf(items[n])];
      var kept := Filter(items[..n], Fresh(now));
      assert items[..n] + [items[n]] == items;
      FilterSnoc(items[..n], items[n], Fresh(now));
      assert Filter(items, Fresh(now)) == if Expired(items[n], now) then kept else kept + [items[n]];
      MapSnoc(kept, PostOf, items[n]);
    }
  }

  lemma {:induction false} ProcessKept(items: seq<QueuedSubmission>, delivered: seq<bool>, now: int)
    requires |delivered| == |items|
    ensures Process(items, delivered, now).1 == Map(Filter(Zip(items, delivered), Failed(now)), ItemOf)
    decreases |items|
  {
    if |items| > 0 {
      var n := |items| - 1;
      ProcessKept(items[..n], delivered[..n], now);
      var z := Zip(items[..n], delivered[..n]);
      ZipSnoc(items, delivered);
      FilterSnoc(z, (items[n], delivered[n]), Failed(now));
      MapSnoc(Filter(z, Failed(now)), ItemOf, (items[n], delivered[n]));
    }
  }

  /** Nothing is posted twice and nothing unexpired is lost: each one is posted, and kept exactly when its post failed. */
  lemma ProcessAccounts(items: seq<QueuedSubmission>, delivered: seq<bool>, now: int)
    requires |delivered| == |items|
    ensures |Process(items, delivered, now).0| + Count(items, Stale(now)) == |items|
    ensures |Process(items, delivered, now).1| <= |Process(items, delivered, now).0|
  {
    ProcessSpec(items, delivered, now);
    FreshCount(items, now);
    FailedAtMostFresh(items, delivered, now);
  }

  lemma {:induction false} FreshCount(items: seq<QueuedSubmission>, now: int)
    ensures |Filter(items, Fresh(now))| + Count(items, Stale(now)) == |items|
    decreases |items|
  {
    if |items| > 0 {
      FreshCount(items[..|items| - 1], now);
    }
  }

  lemma FailedAtMostFresh(items: seq<QueuedSubmission>, delivered: seq<bool>, now: int)
    requires |delivered| == |items|
    ensures |Filter(Zip(items, delivered), Failed(now))| <= |Filter(items, Fresh(now))|
  {
    var z := Zip(items, delivered);
    forall i | 0 <= i < |z| && Failed(now)(z[i])
      ensures Fresh(now)(items[i])
    {
      assert z[i].0 == items[i];
    }
    FilterLengthMono(z, items, Failed(now), Fresh(now));
  }

  /** Filtering two lists of one length, where `p` at a position implies `q` there, keeps no more of the first. */
  lemma {:induction false} FilterLengthMono<T, U>(s: seq<T>, t: seq<U>, p: T -> bool, q: U -> bool)
    requires |s| == |t|
    requires forall i | 0 <= i < |s| && p(s[i]) :: q(t[i])
    ensures |Filter(s, p)| <= |Filter(t, q)|
    decreases |s|
  {
    if |s| > 0 {
      var n := |s| - 1;
      forall i | 0 <= i < n && p(s[..n][i])
        ensures q(t[..n][i])
      {
        assert s[..n][i] == s[i] && t[..n][i] == t[i];
      }
      FilterLengthMono(s[..n], t[..n], p, q);
      assert s[..n] + [s[n]] == s;
      assert t[..n] + [t[n]] == t;
      FilterSnocLength(s[..n], s[n], p);
      FilterSnocLength(t[..n], t[n], q);
    }
  }

  lemma ZipSnoc(items: seq<QueuedSubmission>, delivered: seq<bool>)
    requires |delivered| == |items| > 0
    ensures var n := |items| - 1;
            Zip(items, delivered) == Zip(items[..n], delivered[..n]) + [(items[n], delivered[n])]
  {
  }

  lemma FilterSnocLength<T>(s: seq<T>, x: T, p: T -> bool)
    ensures |Filter(s + [x], p)| == |Filter(s, p)| + if p(x) then 1 else 0
  {
    FilterSnoc(s, x, p);
  }

  lemma FilterSnoc<T>(s: seq<T>, x: T, p: T -> bool)
    ensures Filter(s + [x], p) == if p(x) then Filter(s, p) + [x] else Filter(s, p)
  {
    assert (s + [x])[..|s|] == s;
  }

  lemma MapSnoc<T, U>(s: seq<T>, f: T -> U, x: T)
    ensures Map(s + [x], f) == Map(s, f) + [f(x)]
  {
  }
}
