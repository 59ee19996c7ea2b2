/**
  Scoring: points per word, the score and maximum score of a puzzle, the
  percentage shown to the player, and the level that percentage reaches.
 */
module Score {
  import opened Seqs
  import opened Numeric

  const LevelKeys: seq<string> :=
    ["beginner", "novice", "movingUp", "good", "solid", "nice", "great", "amazing", "genius", "perfect"]

  /** The percentage each level starts at, in level order. */
  const Thresholds: seq<real> := [0.0, 2.5, 5.0, 8.0, 15.0, 25.0, 40.0, 50.0, 70.0, 100.0]

  const LevelCount: nat := 10

  /** Later levels start strictly higher. */
  lemma ThresholdsIncrease(i: nat, j: nat)
    requires i < j < LevelCount
    ensures Thresholds[i] < Thresholds[j]
  {
  }

  /** `scoreWord`: a four-letter word scores 1; longer ones their length, plus 7 for using seven letters. */
  function ScoreWord(word: string): (n: nat) {
    if |word| == 4 then 1 else |word| + (if |Elems(word)| == 7 then 7 else 0)
  }

  /**
    Four-letter words score 1 and other words at least their length; a word
    with seven distinct letters has at least seven letters, so it always
    earns its length plus the seven bonus points.
   */
  lemma ScoreWordSpec(word: string)
    ensures |word| == 4 ==> ScoreWord(word) == 1
    ensures |word| != 4 ==> |word| <= ScoreWord(word) <= |word| + 7
    ensures |Elems(word)| == 7 ==> |word| >= 7 && ScoreWord(word) == |word| + 7
    ensures |word| != 4 && |Elems(word)| != 7 ==> ScoreWord(word) == |word|
  {
    ElemsCard(word);
  }

  /** `reduce((sum, word) => sum + scoreWord(word), 0)`. */
  function SumScores(words: seq<string>): nat {
    Sum(words, ScoreWord)
  }

  /** `maxScore`: the points of every valid word. */
  function MaxScore(validWords: seq<string>): nat {
    SumScores(validWords)
  }

  /** `score`: the points of the words found, or 0 while there is no set yet. */
  function PlayerScore(found: Option<seq<string>>): nat {
    if found.Some? then SumScores(found.value) else 0
  }

  /** Taking one occurrence of `x` out of `t` takes away exactly its points. */
  lemma SumScoresRemove(t: seq<string>, i: nat)
    requires i < |t|
    ensures SumScores(t) == SumScores(t[..i] + t[i + 1..]) + ScoreWord(t[i])
  {
    SumRemove(t, i, ScoreWord);
  }

  /** Distinct words drawn from `t` score no more than `t` does. */
  lemma {:induction false} SumScoresSubset(s: seq<string>, t: seq<string>)
    requires NoDup(s)
    requires Elems(s) <= Elems(t)
    ensures SumScores(s) <= SumScores(t)
    decreases |s|
  {
    if |s| > 0 {
      var n := |s| - 1;
      var x := s[n];
      assert x in Elems(t);
      var i :| 0 <= i < |t| && t[i] == x;
      var t' := t[..i] + t[i + 1..];
      SumScoresRemove(t, i);
      assert Elems(s[..n]) <= Elems(t') by {
        forall y | y in Elems(s[..n]) ensures y in Elems(t') {
          assert y != x;
          assert y in Elems(t);
          var j :| 0 <= j < |t| && t[j] == y;
          assert j != i;
          if j < i {
            assert t'[j] == y;
          } else {
            assert t'[j - 1] == y;
          }
        }
      }
      SumScoresSubset(s[..n], t');
    }
  }

  /** `calculatePercentage`: 100 only for a perfect score, otherwise rounded and capped at 99. */
  function CalculatePercentage(score: int, maxScore: int): (p: int)
    ensures maxScore == 0 ==> p == 0
    ensures maxScore != 0 && score >= maxScore ==> p == 100
    ensures score < maxScore ==> p <= 99
  {
    if maxScore == 0 then 0
    else if score >= maxScore then 100
    else Min(Round((100 * score) as real / maxScore as real), 99)
  }

  /** Short of a perfect score the percentage is the rounded share, as an integer quotient, capped at 99. */
  lemma PercentageBelowPerfect(score: int, maxScore: int)
    requires 0 <= score < maxScore
    ensures CalculatePercentage(score, maxScore) == Min((200 * score + maxScore) / (2 * maxScore), 99)
    ensures 0 <= CalculatePercentage(score, maxScore) <= 99
  {
    RoundOfQuotient(100 * score, maxScore);
    assert 2 * (100 * score) + maxScore == 200 * score + maxScore;
    DivMonotone(0, 200 * score + maxScore, 2 * maxScore);
  }

  /**
    A player's percentage lies between 0 and 100 whenever the words found
    are distinct valid words, and it is 100 once every valid word is found.
   */
  lemma PlayerPercentageBounds(found: seq<string>, validWords: seq<string>)
    requires NoDup(found) && Elems(found) <= Elems(validWords)
    ensures var p := CalculatePercentage(PlayerScore(Some(found)), MaxScore(validWords));
            && 0 <= p <= 100
            && (NoDup(validWords) && Elems(found) == Elems(validWords) ==> p == 100 || MaxScore(validWords) == 0)
  {
    SumScoresSubset(found, validWords);
    var score, max := SumScores(found), SumScores(validWords);
    if score < max {
      PercentageBelowPerfect(score, max);
    }
    if NoDup(validWords) && Elems(found) == Elems(validWords) {
      SumScoresSubset(validWords, found);
    }
  }

  /** The loop of `getLevelKey` over the levels below `i`, highest first. */
  function FindLevel(p: real, i: nat): (k: nat)
    requires i <= LevelCount
    ensures k < LevelCount
    ensures i == 0 ==> k == 0
    ensures (exists j | 0 <= j < i :: Thresholds[j] <= p) ==> k < i && Thresholds[k] <= p
    ensures forall j | k < j < i :: p < Thresholds[j]
    ensures (forall j | 0 <= j < i :: p < Thresholds[j]) ==> k == 0
  {
    if i == 0 then 0
    else if Thresholds[i - 1] <= p then i - 1
    else FindLevel(p, i - 1)
  }

  /** `getLevelKey`, as an index into `LevelKeys`. */
  function GetLevel(p: real): (k: nat)
    ensures k < LevelCount
  {
    FindLevel(p, LevelCount)
  }

  function GetLevelKey(p: real): string {
    LevelKeys[GetLevel(p)]
  }

  /**
    The level reached is the one with the highest threshold not above the
    percentage; below every threshold it is `beginner`.
   */
  lemma GetLevelSpec(p: real)
    ensures p >= 0.0 ==> Thresholds[GetLevel(p)] <= p
    ensures forall j | GetLevel(p) < j < LevelCount :: p < Thresholds[j]
    ensures p < 0.0 ==> GetLevelKey(p) == "beginner"
    ensures p >= 100.0 <==> GetLevelKey(p) == "perfect"
  {
    if p >= 0.0 {
      assert Thresholds[0] <= p;
    }
    var k := GetLevel(p);
    if GetLevelKey(p) == "perfect" {
      assert k == 9;
    }
  }

  /** A higher percentage never reaches a lower level. */
  lemma GetLevelMonotone(p: real, q: real)
    requires p <= q
    ensures GetLevel(p) <= GetLevel(q)
  {
  }
}
