/**
  The share card's progress bar and the text copied when sharing a result.
  The bar has one dot per level, evenly spaced; between two dots it fills in
  proportion to the progress from one level's threshold to the next.
 */
module Share {
  import opened Seqs
  import opened Strings
  import opened Score

  /** Where level `i`'s dot sits along the bar, in percent. */
  function DotPosition(i: nat): real {
    i as real / 9.0 * 100.0
  }

  function Clamp01(x: real): (c: real)
    ensures 0.0 <= c <= 1.0
    ensures 0.0 <= x <= 1.0 ==> c == x
  {
    if x < 0.0 then 0.0 else if x > 1.0 then 1.0 else x
  }

  /** The fill inside segment `k`, from level `k`'s dot to the next one. */
  function SegmentFill(p: real, k: nat): (w: real)
    requires k + 1 < LevelCount
    ensures DotPosition(k) <= w <= DotPosition(k + 1)
  {
    var cur, next := Thresholds[k], Thresholds[k + 1];
    ThresholdsIncrease(k, k + 1);
    var progress := (p - cur) / (next - cur);
    var start, end := DotPosition(k), DotPosition(k + 1);
    MulMonotone(end - start, 0.0, Clamp01(progress));
    MulMonotone(end - start, Clamp01(progress), 1.0);
    start + (end - start) * Clamp01(progress)
  }

  lemma MulMonotone(a: real, x: real, y: real)
    requires a >= 0.0 && x <= y
    ensures a * x <= a * y
  {
    assert a * y - a * x == a * (y - x);
  }

  /** `calculateFillWidth`: full at the last level, otherwise the fill of the current segment. */
  function CalculateFillWidth(p: real): (w: real)
    ensures GetLevel(p) + 1 >= LevelCount ==> w == 100.0
    ensures GetLevel(p) + 1 < LevelCount ==> DotPosition(GetLevel(p)) <= w <= DotPosition(GetLevel(p) + 1)
  {
    var idx := GetLevel(p);
    if idx + 1 >= LevelCount then 100.0 else SegmentFill(p, idx)
  }

  /** The bar is full from a perfect score on, empty up to 0, and never outside 0..100. */
  lemma FillWidthBounds(p: real)
    ensures 0.0 <= CalculateFillWidth(p) <= 100.0
    ensures p >= 100.0 ==> CalculateFillWidth(p) == 100.0
    ensures p <= 0.0 ==> CalculateFillWidth(p) == 0.0
  {
    GetLevelSpec(p);
    if p <= 0.0 {
      assert GetLevel(p) == 0 by {
        if GetLevel(p) > 0 {
          ThresholdsIncrease(0, GetLevel(p));
        }
      }
    }
  }

  /** A level's own threshold reaches exactly that level. */
  lemma LevelAtThreshold(i: nat)
    requires i < LevelCount
    ensures GetLevel(Thresholds[i]) == i
  {
    var k := GetLevel(Thresholds[i]);
    assert Thresholds[0] <= Thresholds[i];
    if k > i {
      ThresholdsIncrease(i, k);
    }
  }

  /** At the exact threshold of a level below `perfect`, the bar reaches that level's dot. */
  lemma FillWidthAtThreshold(i: nat)
    requires i + 1 < LevelCount
    ensures CalculateFillWidth(Thresholds[i]) == DotPosition(i)
    ensures CalculateFillWidth(Thresholds[i]) == 100.0 * i as real / 9.0
  {
    LevelAtThreshold(i);
    SegmentStart(i);
  }

  lemma SegmentStart(k: nat)
    requires k + 1 < LevelCount
    ensures SegmentFill(Thresholds[k], k) == DotPosition(k)
  {
    var cur, next := Thresholds[k], Thresholds[k + 1];
    ThresholdsIncrease(k, k + 1);
    assert (cur - cur) / (next - cur) == 0.0;
  }

  lemma DivideMonotone(a: real, b: real, d: real)
    requires a <= b && d > 0.0
    ensures a / d <= b / d
  {
    assert (b / d - a / d) * d == b - a;
  }

  /** Within one segment the bar grows with the percentage. */
  lemma SegmentMonotone(p: real, q: real, k: nat)
    requires p <= q && k + 1 < LevelCount
    ensures SegmentFill(p, k) <= SegmentFill(q, k)
  {
    var cur, next := Thresholds[k], Thresholds[k + 1];
    ThresholdsIncrease(k, k + 1);
    DivideMonotone(p - cur, q - cur, next - cur);
    var cp, cq := Clamp01((p - cur) / (next - cur)), Clamp01((q - cur) / (next - cur));
    var start, end := DotPosition(k), DotPosition(k + 1);
    MulMonotone(end - start, cp, cq);
  }

  /** A higher percentage never shows a shorter bar. */
  lemma FillWidthMonotone(p: real, q: real)
    requires p <= q
    ensures CalculateFillWidth(p) <= CalculateFillWidth(q)
  {
    var kp, kq := GetLevel(p), GetLevel(q);
    GetLevelMonotone(p, q);
    FillWidthBounds(p);
    if kq + 1 < LevelCount {
      if kp == kq {
        SegmentMonotone(p, q, kp);
        assert CalculateFillWidth(p) == SegmentFill(p, kp);
        assert CalculateFillWidth(q) == SegmentFill(q, kp);
      } else {
        assert DotPosition(kp + 1) <= DotPosition(kq);
      }
    }
  }

  datatype ShareData = ShareData(
    date: string, score: int, maxScore: int, wordsFound: int, totalWords: int,
    status: string, pangrams: int, totalPangrams: int, letters: seq<string>)

  /** ` | a/b pangrams`, only when the puzzle has pangrams. */
  function PangramPart(d: ShareData): string {
    if d.totalPangrams > 0 then " | " + IntToString(d.pangrams) + "/" + IntToString(d.totalPangrams) + " pangrams" else ""
  }

  /** The last line of the shared text. */
  const Site: string := "pangrum.com"

  /** The lines of the shared text. */
  function ShareLines(d: ShareData): seq<string> {
    [ "Pangrum " + d.date,
      "Score: " + IntToString(d.score) + " (" + d.status + ")",
      IntToString(d.wordsFound) + "/" + IntToString(d.totalWords) + " words" + PangramPart(d),
      "",
      Site ]
  }

  /** `formatShareText`: title, score and word-count lines, a blank line, and the site. */
  function FormatShareText(d: ShareData): (text: string) {
    var title := "Pangrum " + d.date;
    var score := "Score: " + IntToString(d.score) + " (" + d.status + ")";
    var counts := IntToString(d.wordsFound) + "/" + IntToString(d.totalWords) + " words" + PangramPart(d);
    title + "\n" + (score + "\n" + (counts + "\n\n" + Site))
  }

  lemma IntToStringNoNewline(i: int)
    ensures '\n' !in IntToString(i)
  {
    var s := IntToString(i);
    if i >= 0 {
      assert forall k | 0 <= k < |s| :: IsDigit(s[k]);
    } else {
      var digits := NatToString(-i);
      assert forall k | 0 <= k < |digits| :: IsDigit(digits[k]);
      assert s == "-" + digits;
    }
  }

  /** Three separator-free lines, a blank line and a last line split back into those five. */
  lemma SplitFive(a: string, b: string, c: string, e: string)
    requires '\n' !in a && '\n' !in b && '\n' !in c && '\n' !in e
    ensures Split(a + "\n" + (b + "\n" + (c + "\n\n" + e)), '\n') == [a, b, c, "", e]
  {
    var tail := ['\n'] + e;
    assert Split(tail, '\n') == [[]] + [e] by {
      SplitCons([], '\n', e);
      assert [] + ['\n'] + e == tail;
      IndexOfAbsent(e, '\n');
    }
    var r2 := c + "\n\n" + e;
    assert Split(r2, '\n') == [c] + Split(tail, '\n') by {
      SplitCons(c, '\n', tail);
      assert r2 == c + ['\n'] + tail;
    }
    var r1 := b + "\n" + r2;
    assert Split(r1, '\n') == [b] + Split(r2, '\n') by {
      SplitCons(b, '\n', r2);
    }
    var r0 := a + "\n" + r1;
    assert Split(r0, '\n') == [a] + Split(r1, '\n') by {
      SplitCons(a, '\n', r1);
    }
    FiveLines(a, b, c, e);
  }

  lemma FiveLines(a: string, b: string, c: string, e: string)
    ensures [a] + ([b] + ([c] + ([[]] + [e]))) == [a, b, c, "", e]
  {
  }

  lemma SiteHasNoNewline()
    ensures '\n' !in Site
  {
    assert forall k | 0 <= k < |Site| :: Site[k] != '\n';
  }

  /**
    When the date and status hold no line break, the text splits into
    exactly five lines: the title, the score, the word count (with the
    pangram count only when there are pangrams), a blank line, and the site.
   */
  lemma ShareTextLines(d: ShareData)
    requires '\n' !in d.date && '\n' !in d.status
    ensures Split(FormatShareText(d), '\n') == ShareLines(d)
  {
    IntToStringNoNewline(d.score);
    IntToStringNoNewline(d.wordsFound);
    IntToStringNoNewline(d.totalWords);
    IntToStringNoNewline(d.pangrams);
    IntToStringNoNewline(d.totalPangrams);
    SiteHasNoNewline();
    var lines := ShareLines(d);
    assert '\n' !in lines[0] && '\n' !in lines[1] && '\n' !in lines[2];
    SplitFive(lines[0], lines[1], lines[2], Site);
  }

  /** The word-count line carries a pangram count exactly when the puzzle has pangrams. */
  lemma PangramPartIff(d: ShareData)
    ensures var counts := IntToString(d.wordsFound) + "/" + IntToString(d.totalWords) + " words";
            ShareLines(d)[2] == counts <==> d.totalPangrams <= 0
  {
    var counts := IntToString(d.wordsFound) + "/" + IntToString(d.totalWords) + " words";
    if d.totalPangrams > 0 {
      assert |ShareLines(d)[2]| > |counts|;
    }
  }
}
