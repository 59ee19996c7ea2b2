/**
  Expanding a Hunspell dictionary into the full list of word forms: each
  stem with the suffixes and prefixes its flags allow, the suffixes those
  rules allow in turn, and the cross products of prefixes with suffixes.

  Whether an affix condition matches a word is asked of `test`, which is
  given the condition's regular-expression text and the word.
 */
module Unmunch {
  import opened Seqs
  import opened Numeric
  import opened Hunspell
  import opened StringSort
  import opened Strings

  type Matcher = (string, string) -> bool

  /** An option flag that is set and listed in `flags`. */
  predicate Carries(option: Option<string>, flags: seq<string>) {
    option.Some? && option.value != "" && option.value in flags
  }

  /** `table.get(flag) || []`. */
  function RulesFor(table: map<string, seq<AffixRule>>, flag: string): seq<AffixRule> {
    if flag in table then table[flag] else []
  }

  /** The rules listed under `flags`, flag by flag in order, that satisfy `p`. */
  function Gather(table: map<string, seq<AffixRule>>, flags: seq<string>, p: AffixRule -> bool): (rules: seq<AffixRule>)
    decreases |flags|
  {
    if |flags| == 0 then []
    else Filter(RulesFor(table, flags[0]), p) + Gather(table, flags[1..], p)
  }

  /** A rule is gathered exactly when it is listed under one of the flags and satisfies `p`. */
  lemma {:induction false} InGather(table: map<string, seq<AffixRule>>, flags: seq<string>, p: AffixRule -> bool, r: AffixRule)
    ensures r in Gather(table, flags, p) <==> p(r) && exists f | f in flags :: r in RulesFor(table, f)
    decreases |flags|
  {
    if |flags| > 0 {
      InGather(table, flags[1..], p, r);
      if exists f | f in flags :: r in RulesFor(table, f) {
        var f :| f in flags && r in RulesFor(table, f);
        InHeadOrTail(flags, f);
      }
    }
  }

  /** `w.slice(0, -strip.length)` for a non-empty strip: the last `|strip|` characters removed, or all of them. */
  function StripEnd(w: string, strip: string): (r: string)
    ensures strip == "" ==> r == w
    ensures strip != "" ==> r == w[..Max(|w| - |strip|, 0)]
  {
    if strip == "" then w else w[..Max(|w| - |strip|, 0)]
  }

  /** `w.slice(strip.length)` for a non-empty strip: the first `|strip|` characters removed, or all of them. */
  function StripStart(w: string, strip: string): (r: string)
    ensures strip == "" ==> r == w
    ensures strip != "" ==> r == w[Min(|strip|, |w|)..]
  {
    if strip == "" then w else w[Min(|strip|, |w|)..]
  }

  /** A suffix rule applied to `w`. */
  function Suffixed(w: string, r: AffixRule): string {
    StripEnd(w, r.strip) + r.add
  }

  /** A prefix rule applied to `w`. */
  function Prefixed(w: string, r: AffixRule): string {
    r.add + StripStart(w, r.strip)
  }

  /** The rules of `table` listed under `flags` whose condition matches `w`. */
  function Applicable(table: map<string, seq<AffixRule>>, flags: seq<string>, w: string, test: Matcher): seq<AffixRule> {
    Gather(table, flags, (r: AffixRule) => test(r.condition, w))
  }

  /**
    The second-level suffixes: the suffix rules named by `flags` whose
    condition matches `w`, applied to `w`; inside a cross product only
    cross-product rules take part.
   */
  function Secondary(aff: AffData, w: string, flags: seq<string>, onlyCross: bool, test: Matcher): seq<string> {
    Map(Gather(aff.sfx, flags, (r: AffixRule) => (!onlyCross || r.crossproduct) && test(r.condition, w)), r => Suffixed(w, r))
  }

  /** The words one applicable suffix contributes. */
  function SuffixForms(aff: AffData, stem: string, s: AffixRule, test: Matcher): seq<string> {
    var w := Suffixed(stem, s);
    (if Carries(aff.needAffix, s.flags) then [] else [w]) + Secondary(aff, w, s.flags, false, test)
  }

  /** The words a suffix contributes to a prefixed word inside a cross product. */
  function CrossForms(aff: AffData, prefixed: string, s: AffixRule, test: Matcher): seq<string> {
    var w := Suffixed(prefixed, s);
    [w] + Secondary(aff, w, s.flags, true, test)
  }

  /**
    The words one applicable prefix contributes: the prefixed word, and for
    a cross-product prefix the word's applicable suffixes together with the
    further cross-product suffixes the prefix's own flags allow.
   */
  function PrefixForms(aff: AffData, stem: string, p: AffixRule, suffixes: seq<AffixRule>, test: Matcher): seq<string> {
    var w := Prefixed(stem, p);
    var own := if Carries(aff.needAffix, p.flags) then [] else [w];
    if !p.crossproduct then own
    else
      var additional := Gather(aff.sfx, p.flags, (r: AffixRule) => r.crossproduct && r !in suffixes && test(r.condition, w));
      own + Flatten(Map(suffixes + additional, s => CrossForms(aff, w, s, test)))
  }

  /** Every word `unmunchWord` adds to its result, in the order it adds them. */
  function Candidates(aff: AffData, word: WordEntry, test: Matcher): seq<string> {
    var suffixes := Applicable(aff.sfx, word.flags, word.stem, test);
    var prefixes := Applicable(aff.pfx, word.flags, word.stem, test);
    (if Carries(aff.needAffix, word.flags) then [] else [word.stem])
    + Flatten(Map(suffixes, s => SuffixForms(aff, word.stem, s, test)))
    + Flatten(Map(prefixes, p => PrefixForms(aff, word.stem, p, suffixes, test)))
  }

  /** `unmunchWord`: nothing for a forbidden word, otherwise its forms, each once, in the order first added. */
  function UnmunchWord(aff: AffData, word: WordEntry, test: Matcher): (forms: seq<string>)
    ensures NoDup(forms)
  {
    if Carries(aff.forbiddenWord, word.flags) then [] else Dedup(Candidates(aff, word, test))
  }

  /** `unmunch`: every form of every word of the dictionary, each once, sorted. */
  function UnmunchAll(aff: AffData, words: seq<WordEntry>, test: Matcher): (forms: seq<string>) {
    SortStrings(Dedup(Flatten(Map(words, w => UnmunchWord(aff, w, test)))))
  }

  /** The whole pipeline: read the affix file, then the dictionary with the affix file's flag notation. */
  function Unmunch(dic: string, affText: string, compiles: string -> bool, test: Matcher): (forms: seq<string>) {
    var aff := ParseAffixFile(affText, compiles);
    UnmunchAll(aff, ParseDictionaryFile(dic, aff.flagType), test)
  }

  // ---------------------------------------------------------------------
  // Properties

  /** A word carrying the forbidden-word flag expands to nothing. */
  lemma ForbiddenWord(aff: AffData, word: WordEntry, test: Matcher)
    requires Carries(aff.forbiddenWord, word.flags)
    ensures UnmunchWord(aff, word, test) == []
  {
  }

  lemma InCandidates(aff: AffData, word: WordEntry, test: Matcher, x: string)
    ensures var suffixes := Applicable(aff.sfx, word.flags, word.stem, test);
            var prefixes := Applicable(aff.pfx, word.flags, word.stem, test);
            x in Candidates(aff, word, test)
            <==> || (x == word.stem && !Carries(aff.needAffix, word.flags))
                 || (exists i | 0 <= i < |suffixes| :: x in SuffixForms(aff, word.stem, suffixes[i], test))
                 || (exists i | 0 <= i < |prefixes| :: x in PrefixForms(aff, word.stem, prefixes[i], suffixes, test))
  {
    var suffixes := Applicable(aff.sfx, word.flags, word.stem, test);
    var prefixes := Applicable(aff.pfx, word.flags, word.stem, test);
    var ss := Map(suffixes, s => SuffixForms(aff, word.stem, s, test));
    var ps := Map(prefixes, p => PrefixForms(aff, word.stem, p, suffixes, test));
    InFlatten(ss, x);
    InFlatten(ps, x);
  }

  /**
    The forms of a word that is not forbidden: the stem unless the word
    needs an affix, and the forms each applicable suffix and prefix
    contributes; nothing else, and nothing twice.
   */
  lemma UnmunchWordSpec(aff: AffData, word: WordEntry, test: Matcher, x: string)
    requires !Carries(aff.forbiddenWord, word.flags)
    ensures var suffixes := Applicable(aff.sfx, word.flags, word.stem, test);
            var prefixes := Applicable(aff.pfx, word.flags, word.stem, test);
            x in UnmunchWord(aff, word, test)
            <==> || (x == word.stem && !Carries(aff.needAffix, word.flags))
                 || (exists i | 0 <= i < |suffixes| :: x in SuffixForms(aff, word.stem, suffixes[i], test))
                 || (exists i | 0 <= i < |prefixes| :: x in PrefixForms(aff, word.stem, prefixes[i], suffixes, test))
  {
    InCandidates(aff, word, test, x);
    assert x in UnmunchWord(aff, word, test) <==> x in Elems(Candidates(aff, word, test));
  }

  /** The stem is a form of a word that neither is forbidden nor needs an affix. */
  lemma StemIncluded(aff: AffData, word: WordEntry, test: Matcher)
    requires !Carries(aff.forbiddenWord, word.flags) && !Carries(aff.needAffix, word.flags)
    ensures word.stem in UnmunchWord(aff, word, test)
  {
    UnmunchWordSpec(aff, word, test, word.stem);
  }

  /**
    A suffix rule listed under one of the word's flags whose condition
    matches the stem contributes the stem with the strip removed from its
    end and the affix added, unless the rule's own flags need an affix.
   */
  lemma SuffixIncluded(aff: AffData, word: WordEntry, test: Matcher, flag: string, s: AffixRule)
    requires !Carries(aff.forbiddenWord, word.flags)
    requires flag in word.flags && s in RulesFor(aff.sfx, flag) && test(s.condition, word.stem)
    requires !Carries(aff.needAffix, s.flags)
    ensures StripEnd(word.stem, s.strip) + s.add in UnmunchWord(aff, word, test)
  {
    var suffixes := Applicable(aff.sfx, word.flags, word.stem, test);
    InGather(aff.sfx, word.flags, (r: AffixRule) => test(r.condition, word.stem), s);
    var i :| 0 <= i < |suffixes| && suffixes[i] == s;
    var x := StripEnd(word.stem, s.strip) + s.add;
    assert x in SuffixForms(aff, word.stem, suffixes[i], test);
    UnmunchWordSpec(aff, word, test, x);
  }

  /** The prefix counterpart: the affix added in front of the stem with the strip removed from its start. */
  lemma PrefixIncluded(aff: AffData, word: WordEntry, test: Matcher, flag: string, p: AffixRule)
    requires !Carries(aff.forbiddenWord, word.flags)
    requires flag in word.flags && p in RulesFor(aff.pfx, flag) && test(p.condition, word.stem)
    requires !Carries(aff.needAffix, p.flags)
    ensures p.add + StripStart(word.stem, p.strip) in UnmunchWord(aff, word, test)
  {
    var suffixes := Applicable(aff.sfx, word.flags, word.stem, test);
    var prefixes := Applicable(aff.pfx, word.flags, word.stem, test);
    InGather(aff.pfx, word.flags, (r: AffixRule) => test(r.condition, word.stem), p);
    var i :| 0 <= i < |prefixes| && prefixes[i] == p;
    var x := p.add + StripStart(word.stem, p.strip);
    assert x in PrefixForms(aff, word.stem, prefixes[i], suffixes, test);
    UnmunchWordSpec(aff, word, test, x);
  }

  /**
    With a cross-product prefix, every suffix that applies to the stem also
    applies to the prefixed stem: the prefixed stem with the suffix's strip
    removed from its end and the suffix added is a form.
   */
  lemma CrossProductIncluded(aff: AffData, word: WordEntry, test: Matcher,
                             pflag: string, p: AffixRule, sflag: string, s: AffixRule)
    requires !Carries(aff.forbiddenWord, word.flags)
    requires pflag in word.flags && p in RulesFor(aff.pfx, pflag) && test(p.condition, word.stem) && p.crossproduct
    requires sflag in word.flags && s in RulesFor(aff.sfx, sflag) && test(s.condition, word.stem)
    ensures StripEnd(p.add + StripStart(word.stem, p.strip), s.strip) + s.add in UnmunchWord(aff, word, test)
  {
    var suffixes := Applicable(aff.sfx, word.flags, word.stem, test);
    var prefixes := Applicable(aff.pfx, word.flags, word.stem, test);
    InGather(aff.pfx, word.flags, (r: AffixRule) => test(r.condition, word.stem), p);
    InGather(aff.sfx, word.flags, (r: AffixRule) => test(r.condition, word.stem), s);
    var i :| 0 <= i < |prefixes| && prefixes[i] == p;
    var j :| 0 <= j < |suffixes| && suffixes[j] == s;
    var w := Prefixed(word.stem, p);
    var additional := Gather(aff.sfx, p.flags, (r: AffixRule) => r.crossproduct && r !in suffixes && test(r.condition, w));
    var pieces := Map(suffixes + additional, s' => CrossForms(aff, w, s', test));
    var x := Suffixed(w, s);
    assert (suffixes + additional)[j] == s;
    assert x in pieces[j];
    InFlatten(pieces, x);
    assert x in PrefixForms(aff, word.stem, prefixes[i], suffixes, test);
    UnmunchWordSpec(aff, word, test, x);
  }

  /** A prefix without the cross-product mark contributes at most the prefixed stem. */
  lemma PrefixWithoutCross(aff: AffData, stem: string, p: AffixRule, suffixes: seq<AffixRule>, test: Matcher)
    requires !p.crossproduct
    ensures PrefixForms(aff, stem, p, suffixes, test)
            == if Carries(aff.needAffix, p.flags) then [] else [p.add + StripStart(stem, p.strip)]
  {
  }

  /** Removing a strip from either end keeps a prefix, respectively a suffix, of the word, as long as the strip and no longer. */
  lemma StripSpec(w: string, strip: string)
    ensures var r := StripEnd(w, strip);
            && |r| == (if strip == "" then |w| else Max(|w| - |strip|, 0))
            && r == w[..|r|]
    ensures var r := StripStart(w, strip);
            && |r| == (if strip == "" then |w| else Max(|w| - |strip|, 0))
            && r == w[|w| - |r|..]
  {
  }

  /**
    The dictionary's forms: sorted, each once, and exactly the forms of its
    words.
   */
  lemma UnmunchAllSpec(aff: AffData, words: seq<WordEntry>, test: Matcher, x: string)
    ensures Sorted(UnmunchAll(aff, words, test))
    ensures NoDup(UnmunchAll(aff, words, test))
    ensures x in UnmunchAll(aff, words, test)
            <==> exists i | 0 <= i < |words| :: x in UnmunchWord(aff, words[i], test)
  {
    var expansions := Map(words, w => UnmunchWord(aff, w, test));
    var all := Dedup(Flatten(expansions));
    SortStringsSet(all);
    InFlatten(expansions, x);
    assert x in all <==> x in Elems(Flatten(expansions));
    assert x in UnmunchAll(aff, words, test) <==> x in Elems(SortStrings(all));
  }

  /** The forms of the entries parsed from dictionary lines, line by line. */
  lemma UnmunchLines(aff: AffData, lines: seq<string>, test: Matcher, x: string)
    ensures x in UnmunchAll(aff, ParseWordLines(lines, aff.flagType), test)
            <==> exists i | 0 <= i < |lines| ::
                   && ParseDictionaryLine(lines[i], aff.flagType).Some?
                   && x in UnmunchWord(aff, ParseDictionaryLine(lines[i], aff.flagType).value, test)
  {
    var words := ParseWordLines(lines, aff.flagType);
    UnmunchAllSpec(aff, words, test, x);
    if x in UnmunchAll(aff, words, test) {
      var i :| 0 <= i < |words| && x in UnmunchWord(aff, words[i], test);
      InParseWordLines(lines, aff.flagType, words[i]);
      var j :| 0 <= j < |lines| && ParseDictionaryLine(lines[j], aff.flagType) == Some(words[i]);
    }
    if exists j | 0 <= j < |lines| :: && ParseDictionaryLine(lines[j], aff.flagType).Some?
                                     && x in UnmunchWord(aff, ParseDictionaryLine(lines[j], aff.flagType).value, test) {
      var j :| 0 <= j < |lines| && ParseDictionaryLine(lines[j], aff.flagType).Some?
               && x in UnmunchWord(aff, ParseDictionaryLine(lines[j], aff.flagType).value, test);
      var e := ParseDictionaryLine(lines[j], aff.flagType).value;
      InParseWordLines(lines, aff.flagType, e);
      var i :| 0 <= i < |words| && words[i] == e;
    }
  }

  /**
    The whole pipeline: the dictionary's first line (the word count) is
    skipped, the result is sorted and free of repeats, and a form is listed
    exactly when some later line parses to an entry that expands to it.
   */
  lemma UnmunchSpec(first: string, rest: string, affText: string, compiles: string -> bool, test: Matcher, x: string)
    requires '\n' !in first
    ensures Sorted(Unmunch(first + "\n" + rest, affText, compiles, test))
    ensures NoDup(Unmunch(first + "\n" + rest, affText, compiles, test))
    ensures var aff := ParseAffixFile(affText, compiles);
            var lines := Split(rest, '\n');
            x in Unmunch(first + "\n" + rest, affText, compiles, test)
            <==> exists i | 0 <= i < |lines| ::
                   && ParseDictionaryLine(lines[i], aff.flagType).Some?
                   && x in UnmunchWord(aff, ParseDictionaryLine(lines[i], aff.flagType).value, test)
  {
    var aff := ParseAffixFile(affText, compiles);
    var lines := Split(rest, '\n');
    ParseDictionaryFileSpec(first, rest, aff.flagType);
    var words := ParseWordLines(lines, aff.flagType);
    assert Unmunch(first + "\n" + rest, affText, compiles, test) == UnmunchAll(aff, words, test);
    UnmunchAllSpec(aff, words, test, x);
    UnmunchLines(aff, lines, test, x);
  }
}
