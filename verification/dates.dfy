/**
  Cached puzzle dates: reading a language and date back from the path of a
  cached words request, and choosing the cached date closest to a wanted one.
 */
module Dates {
  import opened Seqs
  import opened Strings
  import SyncKeys

  /** The path prefix of the words endpoint. */
  const WordsPath: string := "/api/words/"

  /**
    The path of `WORDS_API_URL_PATTERN`, `/api/words/{lang}/{dddd-dd-dd}`, read
    back into its language and date; the language is any non-empty text
    without `/`.
   */
  function ParseWordsPath(path: string): (r: Option<(string, string)>)
    ensures r.Some? ==> path == WordsPath + r.value.0 + "/" + r.value.1
    ensures r.Some? ==> |r.value.0| > 0 && '/' !in r.value.0 && SyncKeys.IsDateShape(r.value.1)
  {
    if !StartsWith(path, WordsPath) then None
    else
      var rest := path[|WordsPath|..];
      if |rest| < 12 then None
      else
        var cut := |rest| - 11;
        var lang, date := rest[..cut], rest[cut + 1..];
        if rest[cut] == '/' && '/' !in lang && SyncKeys.IsDateShape(date) then
          assert rest == lang + "/" + date;
          assert path == path[..|WordsPath|] + rest;
          Some((lang, date))
        else None
  }

  /** Every path of that shape is matched, with its own language and date: the pattern accepts exactly those paths. */
  lemma ParseWordsPathComplete(lang: string, date: string)
    requires |lang| > 0 && '/' !in lang && SyncKeys.IsDateShape(date)
    ensures ParseWordsPath(WordsPath + lang + "/" + date) == Some((lang, date))
  {
    var path := WordsPath + lang + "/" + date;
    var rest := lang + "/" + date;
    assert path[..|WordsPath|] == WordsPath;
    assert path[|WordsPath|..] == rest;
    assert rest[..|lang|] == lang;
    assert rest[|lang| + 1..] == date;
  }

  /** The distance between two days. */
  function Dist(a: int, b: int): nat {
    if a >= b then a - b else b - a
  }

  /**
    `getClosestDate`. `day` gives the day number of a date, standing in for
    `new Date(date).getTime()`. With no cached dates, or when the target is
    cached, the target itself; otherwise the first cached date, in the set's
    order, whose day is nearest the target's.
   */
  method GetClosestDate(cached: seq<string>, target: string, day: string -> int) returns (closest: string)
    ensures |cached| == 0 || target in cached ==> closest == target
    ensures |cached| > 0 && target !in cached ==> closest in cached
    ensures |cached| > 0 && target !in cached ==>
      forall d | d in cached :: Dist(day(closest), day(target)) <= Dist(day(d), day(target))
    ensures |cached| > 0 && target !in cached ==>
      exists k | 0 <= k < |cached| && cached[k] == closest ::
        forall j | 0 <= j < k :: Dist(day(closest), day(target)) < Dist(day(cached[j]), day(target))
  {
    if |cached| == 0 {
      return target;
    }
    if target in cached {
      return target;
    }
    var targetTime := day(target);
    closest := target;
    var closestDiff: Option<nat> := None;
    ghost var at: nat := 0;
    for i := 0 to |cached|
      invariant i == 0 <==> closestDiff.None?
      invariant i > 0 ==> at < i && closest == cached[at] && closestDiff.value == Dist(day(closest), targetTime)
      invariant i > 0 ==> forall j | 0 <= j < i :: closestDiff.value <= Dist(day(cached[j]), targetTime)
      invariant i > 0 ==> forall j | 0 <= j < at :: closestDiff.value < Dist(day(cached[j]), targetTime)
    {
      var diff := Dist(day(cached[i]), targetTime);
      if closestDiff.None? || diff < closestDiff.value {
        closestDiff := Some(diff);
        closest := cached[i];
        at := i;
      }
    }
  }
}
