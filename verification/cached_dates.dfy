/**
  Which puzzle dates the device has cached, per language, read from the
  cached words requests, and the offline choice of a date to show.
 */
module CachedDates {
  import opened Seqs
  import opened OrderedMap
  import opened Dates

  /** Language to the set of its cached dates (no date twice), in the order first met. */
  type DateSets = m: OMap<string, seq<string>> | m.Valid() witness OMap([], map[])

  datatype CachedDatesState = CachedDatesState(dates: DateSets, loaded: bool)

  /** The state before anything is loaded. */
  function Initial(): CachedDatesState {
    CachedDatesState(Empty(), false)
  }

  /** The grouping loop of `loadCachedDates` over the cached request paths. */
  function Group(paths: seq<string>, acc: DateSets): (r: DateSets)
    decreases |paths|
  {
    if |paths| == 0 then acc
    else
      var acc' :=
        match ParseWordsPath(paths[0])
        case None => acc
        case Some((lang, date)) =>
          var set0 := match Get(acc, lang) case Some(s) => s case None => [];
          Put(acc, lang, Add(set0, date));
      Group(paths[1..], acc')
  }

  /**
    `loadCachedDates`: `paths` are the paths of the cached requests, or
    `None` when the cache cannot be opened or listed. Either way the state
    is marked loaded.
   */
  function LoadCachedDates(paths: Option<seq<string>>): (s: CachedDatesState)
    ensures s.loaded
    ensures paths.None? ==> s.dates.values == map[]
  {
    match paths
    case None => CachedDatesState(Empty(), true)
    case Some(ps) => CachedDatesState(Group(ps, Empty()), true)
  }

  /** `getCachedDates`: the language's set, or an empty one. */
  function GetCachedDates(state: CachedDatesState, lang: string): (dates: seq<string>)
    ensures lang !in state.dates.values ==> dates == []
  {
    match Get(state.dates, lang)
    case Some(s) => s
    case None => []
  }

  /** `isCached`. */
  predicate IsCached(state: CachedDatesState, lang: string, date: string) {
    match Get(state.dates, lang)
    case Some(s) => date in s
    case None => false
  }

  /** `isAvailable`: anything is available online; offline only what is cached. */
  predicate IsAvailable(state: CachedDatesState, online: bool, lang: string, date: string) {
    if online then true else IsCached(state, lang, date)
  }

  /** `hasAnyCachedData`. */
  predicate HasAnyCachedData(state: CachedDatesState, lang: string) {
    |GetCachedDates(state, lang)| > 0
  }

  /** A cached path names this language and date. */
  predicate Names(path: string, lang: string, date: string) {
    ParseWordsPath(path) == Some((lang, date))
  }

  lemma {:induction false} GroupAt(paths: seq<string>, acc: DateSets, lang: string, date: string)
    ensures var r := Group(paths, acc);
            (lang in r.values && date in r.values[lang])
            <==> (lang in acc.values && date in acc.values[lang]) || exists p | p in paths :: Names(p, lang, date)
    decreases |paths|
  {
    if |paths| > 0 {
      var acc' :=
        match ParseWordsPath(paths[0])
        case None => acc
        case Some((l, d)) =>
          var set0 := match Get(acc, l) case Some(s) => s case None => [];
          Put(acc, l, Add(set0, d));
      GroupAt(paths[1..], acc', lang, date);
      InHeadOrTail(paths, paths[0]);
      assert forall p | p in paths :: p == paths[0] || p in paths[1..];
      assert forall p | p in paths[1..] :: p in paths;
    }
  }

  lemma {:induction false} GroupLangs(paths: seq<string>, acc: DateSets, lang: string)
    ensures lang in Group(paths, acc).values
            <==> lang in acc.values || exists p, d | p in paths :: Names(p, lang, d)
    decreases |paths|
  {
    if |paths| > 0 {
      var acc' :=
        match ParseWordsPath(paths[0])
        case None => acc
        case Some((l, d)) =>
          var set0 := match Get(acc, l) case Some(s) => s case None => [];
          Put(acc, l, Add(set0, d));
      GroupLangs(paths[1..], acc', lang);
      if exists p, d | p in paths :: Names(p, lang, d) {
        var p, d :| p in paths && Names(p, lang, d);
        if p != paths[0] {
          assert p in paths[1..];
        }
      }
      if exists p, d | p in paths[1..] :: Names(p, lang, d) {
        var p, d :| p in paths[1..] && Names(p, lang, d);
        assert p in paths;
      }
      var r := ParseWordsPath(paths[0]);
      if r.Some? && r.value.0 == lang {
        assert Names(paths[0], lang, r.value.1);
      }
    }
  }

  /** A language is only entered together with a date. */
  lemma {:induction false} GroupNonEmpty(paths: seq<string>, acc: DateSets, lang: string)
    requires forall l | l in acc.values :: |acc.values[l]| > 0
    ensures lang in Group(paths, acc).values ==> |Group(paths, acc).values[lang]| > 0
    decreases |paths|
  {
    if |paths| > 0 {
      var acc' :=
        match ParseWordsPath(paths[0])
        case None => acc
        case Some((l, d)) =>
          var set0 := match Get(acc, l) case Some(s) => s case None => [];
          Put(acc, l, Add(set0, d));
      GroupNonEmpty(paths[1..], acc', lang);
    }
  }

  /** Every language's cached dates hold no date twice. */
  lemma {:induction false} GroupNoDup(paths: seq<string>, acc: DateSets, lang: string)
    requires forall l | l in acc.values :: NoDup(acc.values[l])
    ensures lang in Group(paths, acc).values ==> NoDup(Group(paths, acc).values[lang])
    decreases |paths|
  {
    if |paths| > 0 {
      var acc' :=
        match ParseWordsPath(paths[0])
        case None => acc
        case Some((l, d)) =>
          var set0 := match Get(acc, l) case Some(s) => s case None => [];
          Put(acc, l, Add(set0, d));
      GroupNoDup(paths[1..], acc', lang);
    }
  }

  /**
    After loading, a date is cached for a language exactly when some cached
    request path names that language and date; a language has cached data
    exactly when some path names it; and no date is listed twice.
   */
  lemma LoadedCache(paths: seq<string>, lang: string, date: string)
    ensures IsCached(LoadCachedDates(Some(paths)), lang, date) <==> exists p | p in paths :: Names(p, lang, date)
    ensures HasAnyCachedData(LoadCachedDates(Some(paths)), lang) <==> exists p, d | p in paths :: Names(p, lang, d)
    ensures NoDup(GetCachedDates(LoadCachedDates(Some(paths)), lang))
  {
    var s := LoadCachedDates(Some(paths));
    GroupAt(paths, Empty(), lang, date);
    GroupNoDup(paths, Empty(), lang);
    GroupLangs(paths, Empty(), lang);
    if lang in s.dates.values {
      GroupNonEmpty(paths, Empty(), lang);
    }
  }

  /** Online every date is available; offline, after loading, exactly the dates some cached path names. */
  lemma AvailableAfterLoad(paths: seq<string>, online: bool, lang: string, date: string)
    ensures IsAvailable(LoadCachedDates(Some(paths)), online, lang, date)
            <==> online || exists p | p in paths :: Names(p, lang, date)
  {
    LoadedCache(paths, lang, date);
  }

  /**
    `getClosestAvailableDate`: online, or with the target cached, the target;
    otherwise the closest of the language's cached dates, which is the target
    again when the language has none.
   */
  method GetClosestAvailableDate(state: CachedDatesState, online: bool, lang: string, target: string, day: string -> int)
    returns (date: string)
    ensures online || IsCached(state, lang, target) || !HasAnyCachedData(state, lang) ==> date == target
    ensures !online && !IsCached(state, lang, target) && HasAnyCachedData(state, lang) ==>
      && IsCached(state, lang, date)
      && forall d | d in GetCachedDates(state, lang) :: Dist(day(date), day(target)) <= Dist(day(d), day(target))
  {
    if online {
      return target;
    }
    if IsCached(state, lang, target) {
      return target;
    }
    date := GetClosestDate(GetCachedDates(state, lang), target, day);
  }
}
