/**
  Playing history: the days with saved progress, the current and longest
  streaks of consecutive days, and the statistics shown from them. A day is
  an integer day number, so consecutive calendar days differ by one.
 */
module PuzzleHistory {
  import opened Seqs
  import opened Strings
  import opened OrderedMap
  import opened Numeric
  import opened LocalStore
  import SyncKeys

  /** The played days, a set: no day twice, in insertion order. */
  type Days = s: seq<int> | NoDup(s) witness []

  /** The played days up to and including `d`. */
  function Upto(S: set<int>, d: int): set<int> {
    set x | x in S && x <= d
  }

  lemma UptoShrinks(S: set<int>, d: int)
    requires d in S
    ensures |Upto(S, d - 1)| < |Upto(S, d)|
  {
    assert Upto(S, d) == Upto(S, d - 1) + {d};
  }

  /** The `n` days ending with `d` were all played. */
  predicate PlayedRun(S: set<int>, d: int, n: nat) {
    forall x | d - n < x <= d :: x in S
  }

  /** How many consecutive played days end with `d`. */
  function RunLength(S: set<int>, d: int): nat
    decreases |Upto(S, d)|
  {
    if d in S then
      UptoShrinks(S, d);
      1 + RunLength(S, d - 1)
    else 0
  }

  /**
    `RunLength` is the length of the longest played run ending with `d`: that
    run was played, the day before it was not, and no longer run ends with `d`.
   */
  lemma {:induction false} RunLengthSpec(S: set<int>, d: int)
    ensures PlayedRun(S, d, RunLength(S, d))
    ensures d - RunLength(S, d) !in S
    ensures forall n: nat | PlayedRun(S, d, n) :: n <= RunLength(S, d)
    decreases |Upto(S, d)|
  {
    if d in S {
      UptoShrinks(S, d);
      RunLengthSpec(S, d - 1);
      var m := RunLength(S, d - 1);
    }
  }

  /** A run is never longer than the number of days played. */
  lemma {:induction false} RunLengthBound(S: set<int>, d: int)
    ensures RunLength(S, d) <= |Upto(S, d)| <= |S|
    decreases |Upto(S, d)|
  {
    SubsetCard(Upto(S, d), S);
    if d in S {
      UptoShrinks(S, d);
      RunLengthBound(S, d - 1);
    }
  }

  lemma SubsetCard<T>(a: set<T>, b: set<T>)
    requires a <= b
    ensures |a| <= |b|
  {
    assert b == a + (b - a);
  }

  /**
    `calculateCurrentStreak`: the run ending today, or, when today has not
    been played, the run ending yesterday; 0 when neither day was played.
   */
  method CalculateCurrentStreak(played: Days, today: int) returns (streak: nat)
    ensures today in played ==> streak == RunLength(Elems(played), today)
    ensures today !in played ==> streak == RunLength(Elems(played), today - 1)
    ensures streak == 0 <==> today !in played && today - 1 !in played
  {
    if |played| == 0 {
      return 0;
    }
    ghost var S := Elems(played);
    ghost var start := if today in played then today else today - 1;
    streak := 0;
    var check := today;
    while true
      invariant streak == 0 ==> check == today || (check == today - 1 && check in S && today !in S)
      invariant (streak == 0 && check == today) || streak + RunLength(S, check) == RunLength(S, start)
      decreases |Upto(S, check)|, if check == today then 1 else 0
    {
      if check in played {
        UptoShrinks(S, check);
        streak := streak + 1;
        check := check - 1;
      } else if streak == 0 {
        check := check - 1;
        if check !in played {
          break;
        }
        assert Upto(S, check) == Upto(S, check + 1);
      } else {
        break;
      }
    }
  }

  /** Strictly increasing: sorted, with no day twice. */
  predicate Increasing(s: seq<int>) {
    forall i, j | 0 <= i < j < |s| :: s[i] < s[j]
  }

  function Insert(x: int, s: seq<int>): (r: seq<int>)
    ensures Elems(r) == Elems(s) + {x}
  {
    if |s| == 0 then [x]
    else if x < s[0] then
      ElemsConcat([x], s);
      [x] + s
    else if x == s[0] then s
    else
      var rest := Insert(x, s[1..]);
      assert s == [s[0]] + s[1..];
      ElemsConcat([s[0]], s[1..]);
      ElemsConcat([s[0]], rest);
      [s[0]] + rest
  }

  /** Inserting into an increasing list keeps it increasing. */
  lemma {:induction false} InsertIncreasing(x: int, s: seq<int>)
    requires Increasing(s)
    ensures Increasing(Insert(x, s))
    decreases |s|
  {
    if |s| > 0 && x != s[0] {
      var t := s[1..];
      assert forall y | y in Elems(t) :: s[0] < y by {
        forall y | y in Elems(t) ensures s[0] < y {
          var k :| 0 <= k < |t| && t[k] == y;
          assert s[k + 1] == y;
        }
      }
      if x < s[0] {
        assert forall y | y in Elems(s) :: x < y by {
          assert s == [s[0]] + t;
          ElemsConcat([s[0]], t);
        }
        IncreasingCons(x, s);
      } else {
        assert Increasing(t);
        InsertIncreasing(x, t);
        IncreasingCons(s[0], Insert(x, t));
      }
    }
  }

  lemma IncreasingCons(a: int, s: seq<int>)
    requires Increasing(s) && forall y | y in Elems(s) :: a < y
    ensures Increasing([a] + s)
  {
    forall i, j | 0 <= i < j < |s| + 1
      ensures ([a] + s)[i] < ([a] + s)[j]
    {
      assert s[j - 1] in Elems(s);
      if i > 0 {
        assert s[i - 1] < s[j - 1];
      }
    }
  }

  /**
    `[...played].sort()`. Dates are `YYYY-MM-DD` strings, whose string order
    is calendar order, so sorting them sorts the day numbers.
   */
  function SortDays(s: seq<int>): (r: seq<int>)
    ensures Increasing(r)
    ensures Elems(r) == Elems(s)
  {
    if |s| == 0 then []
    else
      var n := |s| - 1;
      assert s == s[..n] + [s[n]];
      ElemsConcat(s[..n], [s[n]]);
      InsertIncreasing(s[n], SortDays(s[..n]));
      Insert(s[n], SortDays(s[..n]))
  }

  /** In an increasing list, no member lies strictly between neighbours, or before the first. */
  lemma NoneBetween(sorted: seq<int>, i: nat, x: int)
    requires Increasing(sorted) && i < |sorted|
    requires x < sorted[i] && (i > 0 ==> sorted[i - 1] < x)
    ensures x !in sorted
  {
    forall j | 0 <= j < |sorted|
      ensures sorted[j] != x
    {
      if j > i {
        assert sorted[i] < sorted[j];
      } else if j < i {
        assert sorted[j] <= sorted[i - 1];
      }
    }
  }

  /**
    `calculateLongestStreak`: the length of the longest run of consecutive
    played days. It depends only on which days were played, not on their order.
   */
  method CalculateLongestStreak(played: Days) returns (longest: nat)
    ensures |played| == 0 ==> longest == 0
    ensures forall d | d in played :: RunLength(Elems(played), d) <= longest
    ensures |played| > 0 ==> exists d | d in played :: RunLength(Elems(played), d) == longest
  {
    if |played| == 0 {
      return 0;
    }
    var sorted := SortDays(played);
    longest := LongestRun(sorted, Elems(played));
    CoversAll(played, sorted, longest);
  }

  /** The loop of `calculateLongestStreak` over the sorted, non-empty list of days. */
  method LongestRun(sorted: seq<int>, ghost S: set<int>) returns (longest: nat)
    requires Increasing(sorted) && |sorted| > 0 && Elems(sorted) == S
    ensures forall j | 0 <= j < |sorted| :: RunLength(S, sorted[j]) <= longest
    ensures exists j | 0 <= j < |sorted| :: RunLength(S, sorted[j]) == longest
  {
    longest := 0;
    var temp: nat := 0;
    var prev: Option<int> := None;
    ghost var best: nat := 0;
    for i := 0 to |sorted|
      invariant prev == if i == 0 then None else Some(sorted[i - 1])
      invariant i == 0 ==> longest == 0 && temp == 0
      invariant i > 0 ==> temp == RunLength(S, sorted[i - 1])
      invariant forall j | 0 <= j < i :: RunLength(S, sorted[j]) <= Max(longest, temp)
      invariant i > 0 ==> best < i && RunLength(S, sorted[best]) == Max(longest, temp)
    {
      var current := sorted[i];
      ghost var before := Max(longest, temp);
      RunAt(sorted, S, i);
      if prev.None? {
        temp := 1;
      } else {
        var dayDiff := current - prev.value;
        if dayDiff == 1 {
          temp := temp + 1;
        } else {
          longest := Max(longest, temp);
          temp := 1;
        }
      }
      if temp >= longest {
        best := i;
      }
      prev := Some(current);
    }
    longest := Max(longest, temp);
  }

  /** The run ending with a day of the sorted list continues the previous one exactly when that was the day before. */
  lemma RunAt(sorted: seq<int>, S: set<int>, i: nat)
    requires Increasing(sorted) && i < |sorted| && Elems(sorted) == S
    ensures RunLength(S, sorted[i])
            == if i > 0 && sorted[i] - sorted[i - 1] == 1 then 1 + RunLength(S, sorted[i - 1]) else 1
  {
    var d := sorted[i];
    assert d in Elems(sorted);
    RunStep(S, d);
    if !(i > 0 && d - sorted[i - 1] == 1) {
      NoneBetween(sorted, i, d - 1);
      assert d - 1 !in Elems(sorted);
    }
  }

  /** A played day extends the run that ends the day before. */
  lemma RunStep(S: set<int>, d: int)
    requires d in S
    ensures RunLength(S, d) == 1 + RunLength(S, d - 1)
  {
  }

  lemma CoversAll(played: seq<int>, sorted: seq<int>, longest: nat)
    requires Elems(sorted) == Elems(played)
    requires forall j | 0 <= j < |sorted| :: RunLength(Elems(played), sorted[j]) <= longest
    requires exists j | 0 <= j < |sorted| :: RunLength(Elems(played), sorted[j]) == longest
    ensures forall d | d in played :: RunLength(Elems(played), d) <= longest
    ensures exists d | d in played :: RunLength(Elems(played), d) == longest
  {
    var b :| 0 <= b < |sorted| && RunLength(Elems(played), sorted[b]) == longest;
    assert sorted[b] in Elems(played);
    forall d | d in played
      ensures RunLength(Elems(played), d) <= longest
    {
      assert d in Elems(sorted);
      var j :| 0 <= j < |sorted| && sorted[j] == d;
    }
  }

  datatype PuzzleStats = PuzzleStats(currentStreak: nat, longestStreak: nat, totalDaysPlayed: nat)

  /**
    `calculateStats`: the current streak never exceeds the longest, a
    non-empty history has a longest streak between 1 and the number of days
    played, and the total counts each played day once.
   */
  method CalculateStats(played: Days, today: int) returns (stats: PuzzleStats)
    ensures today in played ==> stats.currentStreak == RunLength(Elems(played), today)
    ensures today !in played ==> stats.currentStreak == RunLength(Elems(played), today - 1)
    ensures forall d | d in played :: RunLength(Elems(played), d) <= stats.longestStreak
    ensures |played| > 0 ==> exists d | d in played :: RunLength(Elems(played), d) == stats.longestStreak
    ensures stats.totalDaysPlayed == |Elems(played)|
    ensures stats.currentStreak <= stats.longestStreak
    ensures |played| > 0 ==> 1 <= stats.longestStreak <= |played|
    ensures |played| == 0 ==> stats == PuzzleStats(0, 0, 0)
  {
    var current := CalculateCurrentStreak(played, today);
    var longest := CalculateLongestStreak(played);
    NoDupCard(played);
    if |played| > 0 {
      var d :| d in played && RunLength(Elems(played), d) == longest;
      RunLengthBound(Elems(played), d);
    }
    stats := PuzzleStats(current, longest, |played|);
  }

  /** What `loadHistory` keeps for one day; it always leaves the level unknown. */
  datatype DayProgress = DayProgress(date: string, wordsFound: nat)

  /** Progress by date, in the order the dates were first met. */
  type History = m: OMap<string, DayProgress> | m.Valid() witness OMap([], map[])

  /** The storage keys of one language's puzzles start with `pangrum-{lang}-`. */
  function HistoryPrefix(lang: string): string {
    SyncKeys.StoragePrefix + lang + "-"
  }

  /** An entry `loadHistory` records: a key of the language ending in a date, holding a non-empty list. */
  predicate Recorded(prefix: string, key: string, e: Entry) {
    && StartsWith(key, prefix)
    && SyncKeys.IsDateShape(key[|prefix|..])
    && e.WordArray? && |e.words| > 0
  }

  /** The loop of `loadHistory` over the storage keys `keys`. */
  function LoadEntries(store: Store, keys: seq<string>, prefix: string, acc: History): History
    requires forall k | k in keys :: k in store.values
    decreases |keys|
  {
    if |keys| == 0 then acc
    else
      var key := keys[0];
      var e := store.values[key];
      var acc' :=
        if Recorded(prefix, key, e) then
          var date := key[|prefix|..];
          Put(acc, date, DayProgress(date, |e.words|))
        else acc;
      LoadEntries(store, keys[1..], prefix, acc')
  }

  /** `loadHistory`. */
  function LoadHistory(store: Store, lang: string): History {
    assert forall k | k in store.keys :: k in Elems(store.keys);
    LoadEntries(store, store.keys, HistoryPrefix(lang), Empty())
  }

  lemma {:induction false} LoadEntriesAt(store: Store, keys: seq<string>, prefix: string, acc: History, date: string)
    requires forall k | k in keys :: k in store.values
    ensures var key := prefix + date;
            Get(LoadEntries(store, keys, prefix, acc), date)
            == if key in keys && Recorded(prefix, key, store.values[key])
               then Some(DayProgress(date, |store.values[key].words|))
               else Get(acc, date)
    decreases |keys|
  {
    if |keys| > 0 {
      var key := keys[0];
      var e := store.values[key];
      InHeadOrTail(keys, prefix + date);
      var acc' :=
        if Recorded(prefix, key, e) then
          var d := key[|prefix|..];
          Put(acc, d, DayProgress(d, |e.words|))
        else acc;
      LoadEntriesAt(store, keys[1..], prefix, acc', date);
      if Recorded(prefix, key, e) {
        assert key == prefix + key[|prefix|..];
        assert (prefix + date)[|prefix|..] == date;
      }
    }
  }

  /**
    A date is in the loaded history exactly when its key for the language
    holds a non-empty list and the rest of the key is a date; its word count
    is the length of that list. Unreadable and empty entries are skipped.
   */
  lemma LoadHistorySpec(store: Store, lang: string, date: string)
    ensures var key := HistoryPrefix(lang) + date;
            Get(LoadHistory(store, lang), date)
            == if key in store.values && SyncKeys.IsDateShape(date)
                  && store.values[key].WordArray? && |store.values[key].words| > 0
               then Some(DayProgress(date, |store.values[key].words|))
               else None
  {
    var prefix := HistoryPrefix(lang);
    assert forall k | k in store.keys :: k in Elems(store.keys);
    LoadEntriesAt(store, store.keys, prefix, Empty(), date);
    assert (prefix + date)[|prefix|..] == date;
    assert (prefix + date)[..|prefix|] == prefix;
  }
}
