/**
  The hint shown for a word not yet found: its first letter in capitals and
  its length, so that the rest of the word stays hidden.
 */
module WordHint {
  import opened Strings

  /** `formatWordHint`: `{first letter, uppercased} ({length})`. An empty word has no first letter. */
  function FormatWordHint(word: string): (hint: string) {
    var first := ToUpper(word[..if |word| > 0 then 1 else 0]);
    first + " (" + NatToString(|word|) + ")"
  }

  /**
    The hint opens with the word's first character in capitals (unchanged
    when it is not a lowercase letter), and the number in brackets reads
    back as the word's full length, blanks and all.
   */
  lemma HintParts(word: string)
    requires |word| > 0
    ensures var hint := FormatWordHint(word);
            && hint[0] == ToUpperChar(word[0])
            && hint[1..3] == " ("
            && hint[|hint| - 1] == ')'
            && ParseDigits(hint[3..|hint| - 1]) == |word|
    ensures !IsLowerAscii(word[0]) ==> FormatWordHint(word)[0] == word[0]
  {
    var hint := FormatWordHint(word);
    var digits := NatToString(|word|);
    assert hint == [ToUpperChar(word[0])] + " (" + digits + ")";
    assert hint[3..|hint| - 1] == digits;
    ParseNatToString(|word|);
  }

  /** The empty word gives ` (0)`. */
  lemma EmptyHint()
    ensures FormatWordHint("") == " (0)"
  {
  }

  /** Words that share their first character and their length get the same hint: nothing else shows. */
  lemma HintHidesRest(a: string, b: string)
    requires |a| == |b| > 0 && a[0] == b[0]
    ensures FormatWordHint(a) == FormatWordHint(b)
  {
    assert a[..1] == b[..1];
  }
}
