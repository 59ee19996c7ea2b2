/**
  How many players found a word: the share of players, as a whole percentage,
  computed from the counts a popularity room reports.
 */
module Popularity {
  import opened Seqs
  import opened OrderedMap
  import opened Numeric

  /** `counts[wordHash] || 0`: a hash with no entry counts as 0. */
  function GetWordCount(counts: OMap<string, int>, hash: string): (n: int)
    ensures hash !in counts.values ==> n == 0
    ensures hash in counts.values ==> n == counts.values[hash]
  {
    match Get(counts, hash)
    case Some(c) => c
    case None => 0
  }

  /** `calculateWordPercentage`: `null` without players, otherwise the rounded share. */
  function CalculateWordPercentage(counts: OMap<string, int>, totalPlayers: int, hash: string): (p: Option<int>)
    ensures p.None? <==> totalPlayers == 0
  {
    if totalPlayers == 0 then None
    else Some(Round(GetWordCount(counts, hash) as real / totalPlayers as real * 100.0))
  }

  /** For a non-negative count and a positive total the percentage is an integer quotient. */
  lemma PercentageIsQuotient(counts: OMap<string, int>, totalPlayers: int, hash: string)
    requires totalPlayers > 0
    ensures var c := GetWordCount(counts, hash);
            CalculateWordPercentage(counts, totalPlayers, hash) == Some((200 * c + totalPlayers) / (2 * totalPlayers))
  {
    var c := GetWordCount(counts, hash);
    var t := totalPlayers;
    var C, T := c as real, t as real;
    assert C / T * 100.0 == (100 * c) as real / T by {
      assert (C / T * 100.0) * T == 100.0 * C;
    }
    RoundOfQuotient(100 * c, t);
  }

  /** A count between zero and the number of players gives a percentage between 0 and 100. */
  lemma PercentageBounds(counts: OMap<string, int>, totalPlayers: int, hash: string)
    requires totalPlayers > 0
    requires 0 <= GetWordCount(counts, hash) <= totalPlayers
    ensures 0 <= CalculateWordPercentage(counts, totalPlayers, hash).value <= 100
    ensures GetWordCount(counts, hash) == 0 ==> CalculateWordPercentage(counts, totalPlayers, hash).value == 0
    ensures GetWordCount(counts, hash) == totalPlayers ==> CalculateWordPercentage(counts, totalPlayers, hash).value == 100
  {
    var c := GetWordCount(counts, hash);
    var t := totalPlayers;
    PercentageIsQuotient(counts, totalPlayers, hash);
    DivMonotone(200 * c + t, 200 * t + t, 2 * t);
    QuotientOf(100, t, 2 * t);
    assert 100 * (2 * t) + t == 200 * t + t;
    if c == 0 {
      QuotientOf(0, t, 2 * t);
    }
  }

  /** More finders never means a smaller percentage. */
  lemma PercentageMonotone(counts: OMap<string, int>, totalPlayers: int, hash: string, other: string)
    requires totalPlayers > 0
    requires 0 <= GetWordCount(counts, hash) <= GetWordCount(counts, other)
    ensures CalculateWordPercentage(counts, totalPlayers, hash).value
            <= CalculateWordPercentage(counts, totalPlayers, other).value
  {
    PercentageIsQuotient(counts, totalPlayers, hash);
    PercentageIsQuotient(counts, totalPlayers, other);
    var t := totalPlayers;
    DivMonotone(200 * GetWordCount(counts, hash) + t, 200 * GetWordCount(counts, other) + t, 2 * t);
  }

}
