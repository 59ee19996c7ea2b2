/**
  Reading a Hunspell dictionary: the flag notations of the `FLAG` option,
  the word lines of a `.dic` file, and the `FLAG`, `NEEDAFFIX`,
  `FORBIDDENWORD`, `PFX` and `SFX` lines of a `.aff` file, as this code
  reads them. That reading departs from hunspell(5) in places: a rule's
  continuation flags come from its sixth field rather than from `/flags`
  after the affix text, and a cross product uses the word's suffixes whatever
  their own cross-product mark.

  An affix condition is a regular expression; its source text is kept and
  whether it compiles, or matches a word, is asked of a parameter.
 */
module Hunspell {
  import opened Seqs
  import opened Strings

  /** The `FLAG` notations; `Short` is the default. */
  datatype FlagType = Short | Long | Num | Utf8

  datatype Kind = Pfx | Sfx

  function KindName(k: Kind): string {
    match k
    case Pfx => "PFX"
    case Sfx => "SFX"
  }

  /**
    One affix rule. `line` is the index of the `.aff` line that created it
    and `kind` the table it went into: together they stand for the identity
    of the rule object, which the expansion compares.
   */
  datatype AffixRule = AffixRule(
    line: nat, kind: Kind, flag: string, crossproduct: bool,
    strip: string, add: string, condition: string, flags: seq<string>)

  datatype WordEntry = WordEntry(stem: string, flags: seq<string>)

  /** Rules by flag, for prefixes and for suffixes; the options read so far. */
  datatype AffData = AffData(
    pfx: map<string, seq<AffixRule>>, sfx: map<string, seq<AffixRule>>,
    needAffix: Option<string>, forbiddenWord: Option<string>, flagType: FlagType)
  {
    function Rules(k: Kind): map<string, seq<AffixRule>> {
      match k
      case Pfx => pfx
      case Sfx => sfx
    }
  }

  /** The strings of `ss` one after another. */
  function Concat(ss: seq<string>): string
    decreases |ss|
  {
    if |ss| == 0 then "" else ss[0] + Concat(ss[1..])
  }

  // ---------------------------------------------------------------------
  // Flags

  /** Consecutive two-character pieces of `s`; the last one is shorter when `|s|` is odd. */
  function Pairs(s: string): (r: seq<string>)
    decreases |s|
  {
    if |s| == 0 then []
    else if |s| <= 2 then [s]
    else [s[..2]] + Pairs(s[2..])
  }

  /** Every character of `s` as a string of its own. */
  function Chars(s: string): (r: seq<string>)
    ensures |r| == |s|
    ensures forall i | 0 <= i < |s| :: r[i] == [s[i]]
  {
    seq(|s|, i requires 0 <= i < |s| => [s[i]])
  }

  /** The flags written as `flagStr` in the given notation; `""` and `"0"` mean none. */
  function ParseFlags(flagStr: string, flagType: FlagType): (flags: seq<string>) {
    if flagStr == "" || flagStr == "0" then []
    else
      match flagType
      case Long => Pairs(flagStr)
      case Num => Split(flagStr, ',')
      case _ => Chars(flagStr)
  }

  /** The pieces of a two-character split are the slices `[2i, 2i+2)` of the input and concatenate back to it. */
  lemma PairsSpec(s: string)
    ensures |Pairs(s)| == (|s| + 1) / 2
    ensures forall i | 0 <= i < |Pairs(s)| :: Pairs(s)[i] == s[2 * i .. PairEnd(s, i)]
    ensures Concat(Pairs(s)) == s
  {
    PairsAt(s);
    PairsConcat(s);
  }

  /** Where the piece starting at `2 * i` ends. */
  function PairEnd(s: string, i: nat): nat {
    if 2 * i + 2 <= |s| then 2 * i + 2 else |s|
  }

  lemma {:induction false} PairsAt(s: string)
    ensures |Pairs(s)| == (|s| + 1) / 2
    ensures forall i | 0 <= i < |Pairs(s)| :: Pairs(s)[i] == s[2 * i .. PairEnd(s, i)]
    decreases |s|
  {
    if |s| > 2 {
      var t := s[2..];
      PairsAt(t);
      var r := Pairs(s);
      assert r == [s[..2]] + Pairs(t);
      forall i | 0 <= i < |r|
        ensures r[i] == s[2 * i .. PairEnd(s, i)]
      {
        if i > 0 {
          assert r[i] == Pairs(t)[i - 1];
          assert PairEnd(s, i) == PairEnd(t, i - 1) + 2;
          SliceOfSlice(s, 2, 2 * (i - 1), PairEnd(t, i - 1));
        }
      }
    }
  }

  lemma SliceOfSlice(s: string, k: nat, a: nat, b: nat)
    requires k <= |s| && a <= b <= |s| - k
    ensures s[k..][a..b] == s[k + a .. k + b]
  {
    assert forall x | 0 <= x < b - a :: s[k..][a..b][x] == s[k + a + x];
  }

  lemma {:induction false} PairsConcat(s: string)
    ensures Concat(Pairs(s)) == s
    decreases |s|
  {
    if |s| > 2 {
      var t := s[2..];
      PairsConcat(t);
      assert Pairs(s) == [s[..2]] + Pairs(t);
      assert Concat(Pairs(s)) == s[..2] + Concat(Pairs(t));
      assert s == s[..2] + t;
    } else if |s| > 0 {
      assert Concat([s]) == s + Concat([]);
    }
  }

  /** One character per flag: the pieces concatenate back to the input. */
  lemma {:induction false} CharsConcat(s: string)
    ensures Concat(Chars(s)) == s
    decreases |s|
  {
    if |s| > 0 {
      CharsConcat(s[1..]);
      assert Chars(s)[1..] == Chars(s[1..]);
      assert s == [s[0]] + s[1..];
    }
  }

  /**
    The flags of each notation: none for `""` or `"0"`; otherwise two-character
    pieces for `long`, comma-separated pieces for `num`, one flag per
    character for the rest, and in every case the flags give the text back.
   */
  lemma ParseFlagsSpec(flagStr: string, flagType: FlagType)
    ensures flagStr == "" || flagStr == "0" ==> ParseFlags(flagStr, flagType) == []
    ensures flagStr != "" && flagStr != "0" && flagType == Long ==>
              && Concat(ParseFlags(flagStr, flagType)) == flagStr
              && forall f | f in ParseFlags(flagStr, flagType) :: 1 <= |f| <= 2
    ensures flagStr != "" && flagStr != "0" && flagType == Num ==>
              && Join(ParseFlags(flagStr, flagType), ',') == flagStr
              && forall f | f in ParseFlags(flagStr, flagType) :: ',' !in f
    ensures flagStr != "" && flagStr != "0" && (flagType == Short || flagType == Utf8) ==>
              && |ParseFlags(flagStr, flagType)| == |flagStr|
              && forall i | 0 <= i < |flagStr| :: ParseFlags(flagStr, flagType)[i] == [flagStr[i]]
  {
    JoinSplit(flagStr, ',');
    if flagStr != "" && flagStr != "0" && flagType == Long {
      PairsSpec(flagStr);
      var r := Pairs(flagStr);
      forall f | f in r
        ensures 1 <= |f| <= 2
      {
        var i :| 0 <= i < |r| && r[i] == f;
        assert 2 * i < |flagStr|;
      }
    }
  }

  // ---------------------------------------------------------------------
  // The dictionary file

  /** A word line: the trimmed text before the first `/` is the stem, the text after it the flags. */
  function ParseDictionaryLine(line: string, flagType: FlagType): (e: Option<WordEntry>) {
    ParseTrimmedLine(Trim(line), flagType)
  }

  function ParseTrimmedLine(t: string, flagType: FlagType): (e: Option<WordEntry>) {
    if t == "" then None
    else
      var parts := Split(t, '/');
      if parts[0] == "" then None
      else
        var flags := if |parts| > 1 && parts[1] != "" then ParseFlags(parts[1], flagType) else [];
        Some(WordEntry(Trim(parts[0]), flags))
  }

  /** The `.dic` file: its first line holds the word count and is skipped. */
  function ParseDictionaryFile(content: string, flagType: FlagType): (words: seq<WordEntry>) {
    ParseWordLines(Split(content, '\n')[1..], flagType)
  }

  /** The entries of the word lines `lines`, in order. */
  function ParseWordLines(lines: seq<string>, flagType: FlagType): (words: seq<WordEntry>) {
    Somes(Map(lines, line => ParseDictionaryLine(line, flagType)))
  }

  /** The first two pieces of a split, described through the positions of the separator. */
  lemma SplitFirstTwo(s: string, c: char)
    ensures Split(s, c)[0] == s[..IndexOf(s, c)]
    ensures |Split(s, c)| > 1 <==> IndexOf(s, c) < |s|
    ensures IndexOf(s, c) < |s| ==>
              var rest := s[IndexOf(s, c) + 1..];
              Split(s, c)[1] == rest[..IndexOf(rest, c)]
  {
    var i := IndexOf(s, c);
    if i == |s| {
      assert s[..i] == s;
    }
  }

  /**
    A line gives an entry exactly when its trimmed text is not empty and does
    not begin with `/`; the stem is then the trimmed text before the first
    `/`, which is not empty and has no `/`, and the flags are those written
    between the first `/` and the next one.
   */
  lemma ParseDictionaryLineSpec(line: string, flagType: FlagType)
    ensures var t := Trim(line);
            ParseDictionaryLine(line, flagType).Some? <==> t != "" && t[0] != '/'
    ensures var t := Trim(line);
            var e := ParseDictionaryLine(line, flagType);
            e.Some? ==>
              && e.value.stem == Trim(t[..IndexOf(t, '/')])
              && e.value.stem != ""
              && '/' !in e.value.stem
    ensures var t := Trim(line);
            var i := IndexOf(t, '/');
            var e := ParseDictionaryLine(line, flagType);
            e.Some? ==>
              e.value.flags
              == if i < |t| && IndexOf(t[i + 1..], '/') > 0
                 then ParseFlags(t[i + 1..][..IndexOf(t[i + 1..], '/')], flagType)
                 else []
  {
    var t := Trim(line);
    TrimmedLineSpec(t, flagType);
  }

  lemma TrimmedLineSpec(t: string, flagType: FlagType)
    requires t == "" || !IsWhitespace(t[0])
    ensures ParseTrimmedLine(t, flagType).Some? <==> t != "" && t[0] != '/'
    ensures var e := ParseTrimmedLine(t, flagType);
            e.Some? ==>
              && e.value.stem == Trim(t[..IndexOf(t, '/')])
              && e.value.stem != ""
              && '/' !in e.value.stem
    ensures var i := IndexOf(t, '/');
            var e := ParseTrimmedLine(t, flagType);
            e.Some? ==>
              e.value.flags
              == if i < |t| && IndexOf(t[i + 1..], '/') > 0
                 then ParseFlags(t[i + 1..][..IndexOf(t[i + 1..], '/')], flagType)
                 else []
  {
    TrimmedLineSome(t, flagType);
    TrimmedLineStem(t, flagType);
    TrimmedLineFlags(t, flagType);
  }

  lemma TrimmedLineSome(t: string, flagType: FlagType)
    ensures ParseTrimmedLine(t, flagType).Some? <==> t != "" && t[0] != '/'
  {
    if t != "" {
      SplitFirstTwo(t, '/');
    }
  }

  lemma TrimmedLineStem(t: string, flagType: FlagType)
    requires t == "" || !IsWhitespace(t[0])
    ensures var e := ParseTrimmedLine(t, flagType);
            e.Some? ==>
              && e.value.stem == Trim(t[..IndexOf(t, '/')])
              && e.value.stem != ""
              && '/' !in e.value.stem
  {
    if t != "" && t[0] != '/' {
      SplitFirstTwo(t, '/');
      var head := t[..IndexOf(t, '/')];
      assert head[0] == t[0];
      StemSpec(head);
    }
  }

  lemma TrimmedLineFlags(t: string, flagType: FlagType)
    ensures var i := IndexOf(t, '/');
            var e := ParseTrimmedLine(t, flagType);
            e.Some? ==>
              e.value.flags
              == if i < |t| && IndexOf(t[i + 1..], '/') > 0
                 then ParseFlags(t[i + 1..][..IndexOf(t[i + 1..], '/')], flagType)
                 else []
  {
    if t != "" {
      SplitFirstTwo(t, '/');
      var parts := Split(t, '/');
      var i := IndexOf(t, '/');
      if i < |t| {
        var rest := t[i + 1..];
        assert parts[1] == rest[..IndexOf(rest, '/')];
        assert parts[1] != "" <==> IndexOf(rest, '/') > 0;
      } else {
        assert |parts| == 1;
      }
    }
  }

  /** The trimmed text of a piece that starts with a visible character and has no `/`. */
  lemma StemSpec(head: string)
    requires |head| > 0 && !IsWhitespace(head[0]) && '/' !in head
    ensures Trim(head) != "" && '/' !in Trim(head)
  {
    TrimBlank(head);
    var stem := Trim(head);
    assert forall k | 0 <= k < |stem| :: stem[k] in head;
  }

  /** The entries are exactly those of the word lines that give one, in order. */
  lemma InParseWordLines(lines: seq<string>, flagType: FlagType, e: WordEntry)
    ensures e in ParseWordLines(lines, flagType)
            <==> exists i | 0 <= i < |lines| :: ParseDictionaryLine(lines[i], flagType) == Some(e)
  {
    var m := Map(lines, line => ParseDictionaryLine(line, flagType));
    InSomes(m, e);
  }

  /** Blank lines give nothing, and the count line is never read as a word. */
  lemma ParseDictionaryFileSpec(first: string, rest: string, flagType: FlagType)
    requires '\n' !in first
    ensures ParseDictionaryFile(first + "\n" + rest, flagType) == ParseWordLines(Split(rest, '\n'), flagType)
    ensures forall line | Trim(line) == "" :: ParseDictionaryLine(line, flagType).None?
  {
    SplitCons(first, '\n', rest);
  }

  // ---------------------------------------------------------------------
  // The affix file

  /** The parser's state: the data read so far, the flag of the last affix header, and each header's cross-product mark. */
  datatype AffState = AffState(aff: AffData, currentFlag: Option<string>, cross: map<(Kind, string), bool>)

  function InitialAff(): AffData {
    AffData(map[], map[], None, None, Short)
  }

  /** The whitespace-separated fields of a line, or nothing for a blank or comment line. */
  function Fields(line: string): (parts: Option<seq<string>>)
    ensures parts.Some? ==> |parts.value| > 0
  {
    var t := Trim(line);
    if t == "" || t[0] == '#' then None
    else
      TokensNonEmpty(t);
      Some(Tokens(t))
  }

  lemma TokensNonEmpty(t: string)
    requires t != "" && !IsWhitespace(t[0])
    ensures |Tokens(t)| > 0
  {
  }

  /** The regular expression of a condition: one not starting with `^` or `.` is anchored at the affix's end of the word. */
  function Anchor(k: Kind, condition: string): (regex: string) {
    if StartsWith(condition, "^") || StartsWith(condition, ".") then condition
    else (if k == Pfx then "^" else "") + condition + (if k == Sfx then "$" else "")
  }

  function NoZero(s: string): string {
    if s == "0" then "" else s
  }

  /** `FLAG` with a known notation switches to it; any other value leaves the notation as it was. */
  function FlagOption(parts: seq<string>, current: FlagType): FlagType {
    if |parts| < 2 then current
    else if parts[1] == "long" then Long
    else if parts[1] == "num" then Num
    else if parts[1] == "UTF-8" then Utf8
    else current
  }

  /** The value of a one-argument option; a missing argument unsets it. */
  function Arg(parts: seq<string>): Option<string> {
    if |parts| > 1 then Some(parts[1]) else None
  }

  /**
    An affix line `parts` of kind `k` at line `lineNo`: a header (3 or 4
    fields) opens the table for its flag; a rule (5 or more fields) is added
    to its flag's table only when that flag is the one of the last header,
    the table exists and the condition compiles.
   */
  function AffixLine(st: AffState, lineNo: nat, k: Kind, parts: seq<string>, compiles: string -> bool): AffState
    requires |parts| >= 2
  {
    var flag := parts[1];
    var rules := st.aff.Rules(k);
    if |parts| == 3 || |parts| == 4 then
      var rules' := if flag in rules then rules else rules[flag := []];
      var aff' := if k == Pfx then st.aff.(pfx := rules') else st.aff.(sfx := rules');
      AffState(aff', Some(flag), st.cross[(k, flag) := parts[2] == "Y"])
    else if |parts| >= 5 && st.currentFlag == Some(flag) then
      var regex := Anchor(k, parts[4]);
      if compiles(regex) && flag in rules then
        var crossproduct := if (k, flag) in st.cross then st.cross[(k, flag)] else false;
        var ruleFlags := if |parts| > 5 then ParseFlags(parts[5], st.aff.flagType) else [];
        var rule := AffixRule(lineNo, k, flag, crossproduct, NoZero(parts[2]), NoZero(parts[3]), regex, ruleFlags);
        var rules' := rules[flag := rules[flag] + [rule]];
        var aff' := if k == Pfx then st.aff.(pfx := rules') else st.aff.(sfx := rules');
        st.(aff := aff')
      else st
    else st
  }

  /** One line of the `.aff` file. */
  function Step(st: AffState, lineNo: nat, line: string, compiles: string -> bool): AffState {
    match Fields(line)
    case None => st
    case Some(parts) => ApplyLine(st, lineNo, parts, compiles)
  }

  /** A directive line, split into its fields; unknown directives are ignored. */
  function ApplyLine(st: AffState, lineNo: nat, parts: seq<string>, compiles: string -> bool): AffState
    requires |parts| > 0
  {
    var d := parts[0];
    if d == "FLAG" then st.(aff := st.aff.(flagType := FlagOption(parts, st.aff.flagType)))
    else if d == "NEEDAFFIX" then st.(aff := st.aff.(needAffix := Arg(parts)))
    else if d == "FORBIDDENWORD" then st.(aff := st.aff.(forbiddenWord := Arg(parts)))
    else if (d == "PFX" || d == "SFX") && |parts| >= 2 then
      AffixLine(st, lineNo, if d == "PFX" then Pfx else Sfx, parts, compiles)
    else st
  }

  /** The lines from `i` on. */
  function StepFrom(lines: seq<string>, i: nat, st: AffState, compiles: string -> bool): AffState
    requires i <= |lines|
    decreases |lines| - i
  {
    if i == |lines| then st
    else StepFrom(lines, i + 1, Step(st, i, lines[i], compiles), compiles)
  }

  function ParseAffixFile(content: string, compiles: string -> bool): AffData {
    StepFrom(Split(content, '\n'), 0, AffState(InitialAff(), None, map[]), compiles).aff
  }

  /** A header line for the table of `flag` of kind `k`. */
  predicate IsHeader(line: string, k: Kind, flag: string) {
    Fields(line).Some? && HeaderFields(Fields(line).value, k, flag)
  }

  predicate HeaderFields(parts: seq<string>, k: Kind, flag: string) {
    && (|parts| == 3 || |parts| == 4)
    && parts[0] == KindName(k)
    && parts[1] == flag
  }

  /** A rule in the table of `flag` of kind `k`, read before line `n`. */
  predicate GoodRule(r: AffixRule, k: Kind, flag: string, n: nat, compiles: string -> bool) {
    && r.kind == k && r.flag == flag && r.line < n
    && r.strip != "0" && r.add != "0"
    && compiles(r.condition)
  }

  /**
    What holds after reading `n` lines: every table was opened by a header
    line for its flag; its rules carry that flag and kind, come from earlier
    lines in line order, have a compiling condition and have a `0` strip or
    add already replaced by the empty string.
   */
  predicate Invariant(lines: seq<string>, n: nat, aff: AffData, compiles: string -> bool) {
    forall k: Kind, flag | flag in aff.Rules(k) ::
      && (exists j | 0 <= j < n && j < |lines| :: IsHeader(lines[j], k, flag))
      && TableOk(aff.Rules(k)[flag], k, flag, n, compiles)
  }

  /** The rules of one table: well formed, read before line `n`, in line order. */
  predicate TableOk(t: seq<AffixRule>, k: Kind, flag: string, n: nat, compiles: string -> bool) {
    && (forall i | 0 <= i < |t| :: GoodRule(t[i], k, flag, n, compiles))
    && (forall i, j | 0 <= i < j < |t| :: t[i].line < t[j].line)
  }

  lemma NoZeroNotZero(s: string)
    ensures NoZero(s) != "0"
  {
  }

  /** A rule line leaves the tables alone unless its flag is that of the last header. */
  lemma RuleNeedsHeader(st: AffState, lineNo: nat, k: Kind, parts: seq<string>, compiles: string -> bool)
    requires |parts| >= 5 && st.currentFlag != Some(parts[1])
    ensures AffixLine(st, lineNo, k, parts, compiles) == st
  {
  }

  /**
    An accepted rule line appends exactly one rule to its flag's table,
    with a `0` strip or add read as empty and the cross-product mark of the
    header; nothing else changes.
   */
  lemma RuleLine(st: AffState, lineNo: nat, k: Kind, parts: seq<string>, compiles: string -> bool)
    requires |parts| >= 5 && st.currentFlag == Some(parts[1])
    requires parts[1] in st.aff.Rules(k) && compiles(Anchor(k, parts[4]))
    ensures var r := AffixLine(st, lineNo, k, parts, compiles);
            && r.currentFlag == st.currentFlag && r.cross == st.cross
            && r.aff.Rules(k).Keys == st.aff.Rules(k).Keys
            && r.aff.Rules(if k == Pfx then Sfx else Pfx) == st.aff.Rules(if k == Pfx then Sfx else Pfx)
            && (forall f | f in st.aff.Rules(k) && f != parts[1] :: r.aff.Rules(k)[f] == st.aff.Rules(k)[f])
            && |r.aff.Rules(k)[parts[1]]| == |st.aff.Rules(k)[parts[1]]| + 1
            && r.aff.Rules(k)[parts[1]][..|st.aff.Rules(k)[parts[1]]|] == st.aff.Rules(k)[parts[1]]
    ensures var rule := Last(AffixLine(st, lineNo, k, parts, compiles).aff.Rules(k)[parts[1]]);
            && rule.strip == (if parts[2] == "0" then "" else parts[2])
            && rule.add == (if parts[3] == "0" then "" else parts[3])
            && rule.crossproduct == ((k, parts[1]) in st.cross && st.cross[(k, parts[1])])
            && rule.line == lineNo
  {
  }

  function Last<T>(s: seq<T>): T
    requires |s| > 0
  {
    s[|s| - 1]
  }

  /** Every line keeps the invariant. */
  lemma StepInvariant(lines: seq<string>, n: nat, st: AffState, compiles: string -> bool)
    requires n < |lines|
    requires Invariant(lines, n, st.aff, compiles)
    ensures Invariant(lines, n + 1, Step(st, n, lines[n], compiles).aff, compiles)
  {
    var f := Fields(lines[n]);
    if f.None? {
      assert Step(st, n, lines[n], compiles) == st;
      InvariantLater(lines, n, st.aff, compiles);
    } else {
      assert Step(st, n, lines[n], compiles) == ApplyLine(st, n, f.value, compiles);
      ApplyInvariant(lines, n, st, f.value, compiles);
    }
  }

  lemma InvariantLater(lines: seq<string>, n: nat, aff: AffData, compiles: string -> bool)
    requires n < |lines|
    requires Invariant(lines, n, aff, compiles)
    ensures Invariant(lines, n + 1, aff, compiles)
  {
    forall k: Kind, flag | flag in aff.Rules(k)
      ensures exists j | 0 <= j < n + 1 && j < |lines| :: IsHeader(lines[j], k, flag)
      ensures TableOk(aff.Rules(k)[flag], k, flag, n + 1, compiles)
    {
      var j :| 0 <= j < n && j < |lines| && IsHeader(lines[j], k, flag);
      assert 0 <= j < n + 1;
      TableOkLater(aff.Rules(k)[flag], k, flag, n, compiles);
    }
  }

  lemma ApplyInvariant(lines: seq<string>, n: nat, st: AffState, parts: seq<string>, compiles: string -> bool)
    requires n < |lines| && |parts| > 0 && Fields(lines[n]) == Some(parts)
    requires Invariant(lines, n, st.aff, compiles)
    ensures Invariant(lines, n + 1, ApplyLine(st, n, parts, compiles).aff, compiles)
  {
    var st' := ApplyLine(st, n, parts, compiles);
    forall k: Kind, flag | flag in st'.aff.Rules(k)
      ensures exists j | 0 <= j < n + 1 && j < |lines| :: IsHeader(lines[j], k, flag)
      ensures TableOk(st'.aff.Rules(k)[flag], k, flag, n + 1, compiles)
    {
      if flag in st.aff.Rules(k) {
        var j :| 0 <= j < n && j < |lines| && IsHeader(lines[j], k, flag);
        assert 0 <= j < n + 1;
        var t := st.aff.Rules(k)[flag];
        if st'.aff.Rules(k)[flag] != t {
          ApplyChanged(st, n, parts, compiles, k, flag);
        } else {
          TableOkLater(t, k, flag, n, compiles);
        }
      } else {
        ApplyNewTable(st, n, parts, compiles, k, flag);
        assert IsHeader(lines[n], k, flag);
      }
    }
  }

  lemma TableOkLater(t: seq<AffixRule>, k: Kind, flag: string, n: nat, compiles: string -> bool)
    requires TableOk(t, k, flag, n, compiles)
    ensures TableOk(t, k, flag, n + 1, compiles)
  {
  }

  /** A table a line creates is empty, and the line is its header. */
  lemma ApplyNewTable(st: AffState, n: nat, parts: seq<string>, compiles: string -> bool, k: Kind, flag: string)
    requires |parts| > 0
    requires flag !in st.aff.Rules(k)
    requires flag in ApplyLine(st, n, parts, compiles).aff.Rules(k)
    ensures HeaderFields(parts, k, flag)
    ensures ApplyLine(st, n, parts, compiles).aff.Rules(k)[flag] == []
  {
  }

  /** A table a line changes gains one well-formed rule from that line, at the end. */
  lemma ApplyChanged(st: AffState, n: nat, parts: seq<string>, compiles: string -> bool, k: Kind, flag: string)
    requires |parts| > 0
    requires flag in st.aff.Rules(k) && TableOk(st.aff.Rules(k)[flag], k, flag, n, compiles)
    requires ApplyLine(st, n, parts, compiles).aff.Rules(k)[flag] != st.aff.Rules(k)[flag]
    ensures TableOk(ApplyLine(st, n, parts, compiles).aff.Rules(k)[flag], k, flag, n + 1, compiles)
  {
    var old_ := st.aff.Rules(k)[flag];
    var t := ApplyLine(st, n, parts, compiles).aff.Rules(k)[flag];
    assert |parts| >= 5 && parts[1] == flag;
    assert t == old_ + [Last(t)];
    NoZeroNotZero(parts[2]);
    NoZeroNotZero(parts[3]);
    assert GoodRule(Last(t), k, flag, n + 1, compiles);
    forall i | 0 <= i < |t|
      ensures GoodRule(t[i], k, flag, n + 1, compiles)
    {
      if i < |old_| {
        assert t[i] == old_[i];
      }
    }
  }

  lemma {:induction false} StepFromInvariant(lines: seq<string>, n: nat, st: AffState, compiles: string -> bool)
    requires n <= |lines|
    requires Invariant(lines, n, st.aff, compiles)
    ensures Invariant(lines, |lines|, StepFrom(lines, n, st, compiles).aff, compiles)
    decreases |lines| - n
  {
    if n < |lines| {
      var st' := Step(st, n, lines[n], compiles);
      StepInvariant(lines, n, st, compiles);
      StepFromInvariant(lines, n + 1, st', compiles);
      assert StepFrom(lines, n, st, compiles) == StepFrom(lines, n + 1, st', compiles);
    }
  }

  /**
    The parsed affix data: every table was opened by a header line for its
    kind and flag, and every rule in it carries that flag and kind, comes
    from a line of the file, has a compiling condition, has no `0` strip or
    add, and the rules of a table are in file order.
   */
  lemma ParseAffixFileSpec(content: string, compiles: string -> bool)
    ensures var lines := Split(content, '\n');
            Invariant(lines, |lines|, ParseAffixFile(content, compiles), compiles)
  {
    var lines := Split(content, '\n');
    StepFromInvariant(lines, 0, AffState(InitialAff(), None, map[]), compiles);
  }

  /** Conditions written without `^` or `.` in front are anchored: prefixes at the start, suffixes at the end. */
  lemma AnchorSpec(k: Kind, condition: string)
    ensures StartsWith(condition, "^") || StartsWith(condition, ".") ==> Anchor(k, condition) == condition
    ensures !StartsWith(condition, "^") && !StartsWith(condition, ".") && k == Pfx ==>
              Anchor(k, condition) == "^" + condition
    ensures !StartsWith(condition, "^") && !StartsWith(condition, ".") && k == Sfx ==>
              Anchor(k, condition) == condition + "$"
  {
  }
}
