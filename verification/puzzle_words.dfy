/**
  The words endpoint for a requested set of seven letters: the valid words
  of the word list, sent masked and sorted, with a hash of each and the
  number of pangrams.
 */
module PuzzleWords {
  import opened Seqs
  import opened Strings
  import opened StringSort

  /**
    The letters of the puzzle: the distinct characters of the uppercased
    query, in first-occurrence order, when there are exactly seven of them;
    otherwise `fallback`, the shuffled letters of a randomly chosen puzzle.
   */
  function PuzzleLetters(query: Option<string>, fallback: seq<char>): (letters: seq<char>)
    ensures var q := Dedup(ToUpper(if query.Some? then query.value else ""));
            |q| == 7 ==> letters == q
    ensures var q := Dedup(ToUpper(if query.Some? then query.value else ""));
            |q| != 7 ==> letters == fallback
  {
    var q := Dedup(ToUpper(if query.Some? then query.value else ""));
    if |q| == 7 then q else fallback
  }

  /** A word of the puzzle: it uses the centre letter `letters[2]` and no letter outside the puzzle. */
  predicate IsValidWord(letters: seq<char>, word: string) {
    |letters| > 2 && letters[2] in word && forall c | c in word :: c in letters
  }

  function ValidWords(letters: seq<char>, words: seq<string>): (valid: seq<string>)
    ensures forall w | w in valid :: w in words && IsValidWord(letters, w)
    ensures forall w | w in words && IsValidWord(letters, w) :: w in valid
    ensures IsSubsequence(valid, words)
  {
    FilterIsSubsequence(words, w => IsValidWord(letters, w));
    Filter(words, w => IsValidWord(letters, w))
  }

  /** The underscores that stand for `n` hidden characters. */
  function Blanks(n: nat): (b: string)
    ensures |b| == n && forall k | 0 <= k < n :: b[k] == '_'
  {
    seq(n, _ => '_')
  }

  /** A word shown with only its first two characters; shorter words are left as they are. */
  function Mask(w: string): (m: string) {
    if |w| < 2 then w else w[..2] + Blanks(|w| - 2)
  }

  /**
    A mask has the word's length, keeps its first two characters and blanks
    every later one; two words get the same mask exactly when they have the
    same length and begin alike.
   */
  lemma MaskSpec(w: string, v: string)
    ensures |Mask(w)| == |w|
    ensures forall k | 0 <= k < |w| :: Mask(w)[k] == if k < 2 then w[k] else '_'
    ensures |w| >= 2 && |v| >= 2 ==> (Mask(w) == Mask(v) <==> |w| == |v| && w[..2] == v[..2])
  {
    if |w| >= 2 && |v| >= 2 && Mask(w) == Mask(v) {
      assert Mask(w)[..2] == w[..2];
      assert Mask(v)[..2] == v[..2];
    }
  }

  /** Contains every letter of the puzzle. */
  predicate IsPangram(letters: seq<char>, word: string) {
    forall c | c in letters :: c in word
  }

  datatype Response = Response(words: seq<string>, hashes: seq<string>, letters: seq<char>, pangrams: nat)

  /**
    The handler: `words` is the word list, `hash` the hash function and
    `fallback` the letters of a random puzzle, used when the query does not
    name seven letters.
   */
  function WordsFor(query: Option<string>, fallback: seq<char>, words: seq<string>, hash: string -> string): (r: Response)
  {
    var letters := PuzzleLetters(query, fallback);
    var valid := ValidWords(letters, words);
    Response(
      SortStrings(Map(valid, Mask)),
      Map(valid, hash),
      letters,
      Count(valid, w => IsPangram(letters, w)))
  }

  /**
    The masks are sorted and are exactly the masks of the valid words, one
    per valid word; the hashes run parallel to the valid words in word-list
    order; the pangram count is the number of valid words that use every
    letter.
   */
  lemma WordsForSpec(query: Option<string>, fallback: seq<char>, words: seq<string>, hash: string -> string)
    ensures var r := WordsFor(query, fallback, words, hash);
            && Sorted(r.words)
            && multiset(r.words) == multiset(Map(ValidWords(r.letters, words), Mask))
    ensures var r := WordsFor(query, fallback, words, hash);
            |r.words| == |r.hashes| == |ValidWords(r.letters, words)|
    ensures var r := WordsFor(query, fallback, words, hash);
            forall i | 0 <= i < |r.hashes| :: r.hashes[i] == hash(ValidWords(r.letters, words)[i])
    ensures var r := WordsFor(query, fallback, words, hash);
            r.pangrams == Count(ValidWords(r.letters, words), w => IsPangram(r.letters, w)) <= |r.words|
  {
    var letters := PuzzleLetters(query, fallback);
    var valid := ValidWords(letters, words);
    var masks := Map(valid, Mask);
    var sorted := SortStrings(masks);
    assert |sorted| == |masks| by {
      assert |multiset(sorted)| == |multiset(masks)|;
    }
  }

  /** With seven distinct letters in the query, the letters are those, each once, in the order first typed. */
  lemma QueryLetters(query: string, fallback: seq<char>)
    requires |Dedup(ToUpper(query))| == 7
    ensures var letters := PuzzleLetters(Some(query), fallback);
            && NoDup(letters)
            && Elems(letters) == Elems(ToUpper(query))
            && forall c | c in letters :: !IsLowerAscii(c)
  {
    var letters := PuzzleLetters(Some(query), fallback);
    forall c | c in letters
      ensures !IsLowerAscii(c)
    {
      assert c in Elems(ToUpper(query));
    }
  }
}
