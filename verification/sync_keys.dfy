/**
  The pure helpers of progress sync: room-code normalisation, the check that a
  local storage key names a date-based puzzle, and the union merge of two word
  lists that also counts the words it added.
 */
module SyncKeys {
  import opened Seqs
  import opened Strings

  const StoragePrefix: string := "pangrum-"
  const IncorrectMarker: string := "-incorrect-"

  /** `code.toLowerCase().trim()`: the room id a join code stands for. */
  function NormalizeRoomId(code: string): (r: string)
    ensures |r| > 0 ==> !IsWhitespace(r[0]) && !IsWhitespace(r[|r| - 1])
    ensures forall k | 0 <= k < |r| :: !IsUpperAscii(r[k])
  {
    Trim(ToLower(code))
  }

  lemma LowerPreservesWhitespace(s: string)
    ensures forall k | 0 <= k < |s| :: IsWhitespace(ToLower(s)[k]) <==> IsWhitespace(s[k])
  {
  }

  /** Lowercasing and trimming commute, and normalising twice changes nothing more. */
  lemma NormalizeRoomIdSpec(code: string)
    ensures NormalizeRoomId(code) == ToLower(Trim(code))
    ensures NormalizeRoomId(NormalizeRoomId(code)) == NormalizeRoomId(code)
  {
    var low := ToLower(code);
    LowerPreservesWhitespace(code);
    TrimSliceAgrees(code, low);
    var r := NormalizeRoomId(code);
    assert ToLower(r) == r;
    TrimIdempotent(low);
  }

  /** Trimming a string and its lowercase copy cut at the same places. */
  lemma TrimSliceAgrees(s: string, low: string)
    requires low == ToLower(s)
    ensures Trim(low) == ToLower(Trim(s))
  {
    TrimStartLower(s);
    TrimEndLower(TrimStart(s));
  }

  lemma TrimStartLower(s: string)
    ensures TrimStart(ToLower(s)) == ToLower(TrimStart(s))
  {
    var low := ToLower(s);
    LowerPreservesWhitespace(s);
    var i, j := |s| - |TrimStart(s)|, |low| - |TrimStart(low)|;
    assert i == j;
  }

  lemma TrimEndLower(s: string)
    ensures TrimEnd(ToLower(s)) == ToLower(TrimEnd(s))
  {
    var low := ToLower(s);
    LowerPreservesWhitespace(s);
    var e, el := |TrimEnd(s)|, |TrimEnd(low)|;
    assert e == el;
  }

  /** Four digits, two digits, two digits, separated by `-`: `\d{4}-\d{2}-\d{2}`. */
  predicate IsDateShape(s: string) {
    && |s| == 10
    && IsDigit(s[0]) && IsDigit(s[1]) && IsDigit(s[2]) && IsDigit(s[3])
    && s[4] == '-'
    && IsDigit(s[5]) && IsDigit(s[6])
    && s[7] == '-'
    && IsDigit(s[8]) && IsDigit(s[9])
  }

  /** Two lowercase letters, optionally followed by `-` and two more: `[a-z]{2}(-[a-z]{2})?`. */
  predicate IsLangCode(s: string) {
    || (|s| == 2 && IsLowerAscii(s[0]) && IsLowerAscii(s[1]))
    || (|s| == 5 && IsLowerAscii(s[0]) && IsLowerAscii(s[1]) && s[2] == '-'
        && IsLowerAscii(s[3]) && IsLowerAscii(s[4]))
  }

  /**
    `DATE_KEY_PATTERN.test(s)`. A match has 13 or 16 characters, depending on
    whether the language code carries a region, so the pattern is decided by
    the length alone.
   */
  predicate MatchesDateKey(s: string) {
    || (|s| == 13 && IsLangCode(s[..2]) && s[2] == '-' && IsDateShape(s[3..]))
    || (|s| == 16 && IsLangCode(s[..5]) && s[5] == '-' && IsDateShape(s[6..]))
  }

  /** The language of the pattern: a language code, `-`, and a date. */
  lemma MatchesDateKeyGrammar(s: string)
    ensures MatchesDateKey(s) <==>
      exists n | 0 <= n < |s| :: IsLangCode(s[..n]) && s[n] == '-' && IsDateShape(s[n + 1..])
  {
    if MatchesDateKey(s) {
      if |s| == 13 {
        assert IsLangCode(s[..2]) && s[2] == '-' && IsDateShape(s[2 + 1..]);
      } else {
        assert IsLangCode(s[..5]) && s[5] == '-' && IsDateShape(s[5 + 1..]);
      }
    }
  }

  /** A key built from a language code and a date always matches. */
  lemma DerivedKeyMatches(lang: string, date: string)
    requires IsLangCode(lang) && IsDateShape(date)
    ensures MatchesDateKey(lang + "-" + date)
  {
    var s := lang + "-" + date;
    if |lang| == 2 {
      assert s[..2] == lang && s[3..] == date;
    } else {
      assert s[..5] == lang && s[6..] == date;
    }
  }

  /** `isValidPuzzleKey`: a storage key naming a date-based puzzle that may be synced. */
  function IsValidPuzzleKey(key: string): (ok: bool)
    ensures ok ==> StartsWith(key, StoragePrefix)
    ensures ok ==> !Contains(key, IncorrectMarker)
    ensures ok ==> MatchesDateKey(key[|StoragePrefix|..])
  {
    if !StartsWith(key, StoragePrefix) then false
    else if Contains(key, IncorrectMarker) then false
    else MatchesDateKey(key[|StoragePrefix|..])
  }

  /** The three ways a key can be rejected, and nothing else rejects it. */
  lemma IsValidPuzzleKeyIff(key: string)
    ensures IsValidPuzzleKey(key) <==>
      && StartsWith(key, StoragePrefix)
      && !Contains(key, IncorrectMarker)
      && exists lang, date :: IsLangCode(lang) && IsDateShape(date)
                              && key == StoragePrefix + lang + "-" + date
  {
    if StartsWith(key, StoragePrefix) {
      var rest := key[|StoragePrefix|..];
      assert key == StoragePrefix + rest;
      if MatchesDateKey(rest) {
        var lang, date := DateKeyParts(rest);
        assert key == StoragePrefix + lang + "-" + date;
      }
      if exists lang, date :: IsLangCode(lang) && IsDateShape(date)
                              && key == StoragePrefix + lang + "-" + date {
        var lang, date :| IsLangCode(lang) && IsDateShape(date)
                          && key == StoragePrefix + lang + "-" + date;
        assert rest == lang + "-" + date;
        DerivedKeyMatches(lang, date);
      }
    }
  }

  /** A matching key splits into its language code and its date. */
  lemma DateKeyParts(rest: string) returns (lang: string, date: string)
    requires MatchesDateKey(rest)
    ensures IsLangCode(lang) && IsDateShape(date) && rest == lang + "-" + date
  {
    var n := if |rest| == 13 then 2 else 5;
    lang, date := rest[..n], rest[n + 1..];
    assert rest == lang + "-" + date;
  }

  /** The result of `mergeWordSets`. */
  datatype Merge = Merge(merged: seq<string>, added: nat)

  /**
    `mergeWordSets(local, remote)`: insert the remote words, in order, into a
    `Set` built from the local ones, counting the insertions that were new.
   */
  function MergeWordSets(local: seq<string>, remote: seq<string>): (r: Merge)
    ensures NoDup(r.merged)
    ensures Elems(r.merged) == Elems(local) + Elems(remote)
    decreases |remote|
  {
    if |remote| == 0 then Merge(Dedup(local), 0)
    else
      var init := remote[..|remote| - 1];
      var w := remote[|remote| - 1];
      var m := MergeWordSets(local, init);
      assert remote == init + [w];
      ElemsConcat(init, [w]);
      if w in m.merged then m
      else
        ElemsConcat(m.merged, [w]);
        Merge(m.merged + [w], m.added + 1)
  }

  /** Every insertion counted in `added` lengthened the local set by one. */
  lemma {:induction false} MergeLength(local: seq<string>, remote: seq<string>)
    ensures |MergeWordSets(local, remote).merged| == |Dedup(local)| + MergeWordSets(local, remote).added
    decreases |remote|
  {
    if |remote| > 0 {
      MergeLength(local, remote[..|remote| - 1]);
    }
  }

  /**
    `added` counts the distinct remote words the local list lacked, and the
    merged list is the local set followed by exactly those words.
   */
  lemma MergeAddedCount(local: seq<string>, remote: seq<string>)
    ensures MergeWordSets(local, remote).added == |Elems(remote) - Elems(local)|
    ensures |MergeWordSets(local, remote).merged| == |Elems(local)| + MergeWordSets(local, remote).added
  {
    var m := MergeWordSets(local, remote);
    MergeLength(local, remote);
    NoDupCard(Dedup(local));
    NoDupCard(m.merged);
    var L, R := Elems(local), Elems(remote);
    assert Elems(m.merged) == L + (R - L);
    assert L !! (R - L);
  }

  /** The merged list is exactly `[...new Set([...local, ...remote])]`. */
  lemma {:induction false} MergeIsDedupOfConcat(local: seq<string>, remote: seq<string>)
    ensures MergeWordSets(local, remote).merged == Dedup(local + remote)
    decreases |remote|
  {
    if |remote| == 0 {
      assert local + remote == local;
    } else {
      var init := remote[..|remote| - 1];
      var w := remote[|remote| - 1];
      MergeIsDedupOfConcat(local, init);
      assert local + remote == (local + init) + [w];
      DedupSnoc(local + init, w);
    }
  }

  /** The local words keep their order and come first. */
  lemma MergeKeepsLocalOrder(local: seq<string>, remote: seq<string>)
    ensures |Dedup(local)| <= |MergeWordSets(local, remote).merged|
    ensures MergeWordSets(local, remote).merged[..|Dedup(local)|] == Dedup(local)
  {
    MergeIsDedupOfConcat(local, remote);
    DedupPrefix(local, remote);
  }

  /** Merging a list into itself adds nothing; merging nothing leaves the set as it was. */
  lemma MergeIdempotent(x: seq<string>)
    ensures MergeWordSets(x, x).added == 0
    ensures MergeWordSets(x, x).merged == Dedup(x)
    ensures MergeWordSets(x, []) == Merge(Dedup(x), 0)
  {
    MergeAddedCount(x, x);
    assert Elems(x) - Elems(x) == {};
    MergeKeepsLocalOrder(x, x);
    NoDupCard(Dedup(x));
  }

  /** Merging two remote lists one after the other is merging their concatenation. */
  lemma MergeAssociative(a: seq<string>, b: seq<string>, c: seq<string>)
    ensures MergeWordSets(MergeWordSets(a, b).merged, c).merged == MergeWordSets(a, b + c).merged
  {
    MergeIsDedupOfConcat(a, b);
    MergeIsDedupOfConcat(Dedup(a + b), c);
    MergeIsDedupOfConcat(a, b + c);
    DedupAssociative(a, b, c);
  }

  /** The words added by two successive merges are those one combined merge adds. */
  lemma MergeAddedAdditive(a: seq<string>, b: seq<string>, c: seq<string>)
    ensures MergeWordSets(a, b).added + MergeWordSets(MergeWordSets(a, b).merged, c).added
            == MergeWordSets(a, b + c).added
  {
    var m1 := MergeWordSets(a, b);
    MergeAssociative(a, b, c);
    MergeAddedCount(a, b);
    MergeAddedCount(m1.merged, c);
    MergeAddedCount(a, b + c);
    NoDupCard(m1.merged);
  }
}
