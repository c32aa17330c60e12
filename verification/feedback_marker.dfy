/** scripts/feedback_marker.py: the feedback message chosen by score band, and the mark
    `round(score * max_marks, 2)`. Scores and marks are exact reals; Python's `round` to two
    places on a float rounds the float's exact value half to even, which `RoundHundredths`
    does on the real. */
module FeedbackMarker {
  import opened RealArith

  /** The four messages, best first. */
  datatype Feedback = Excellent | NearlyCorrect | PartiallyCorrect | Weak
  {
    /** The text `feedback_from_score` returns. */
    function Message(): string {
      match this
      case Excellent => "Excellent answer! Meaning and keywords match almost perfectly."
      case NearlyCorrect => "Nearly correct\U{2014}minor gaps in meaning or facts."
      case PartiallyCorrect => "Partially correct\U{2014}some important content missing."
      case Weak => "Weak answer; not matching expected concepts."
    }

    /** How good the message says the answer is: 0 for the weak band up to 3 for excellent. */
    function Rank(): nat {
      match this
      case Excellent => 3
      case NearlyCorrect => 2
      case PartiallyCorrect => 1
      case Weak => 0
    }
  }

  /** `feedback_from_score`: the band thresholds 0.85, 0.7 and 0.50, each inclusive below. */
  function FeedbackFromScore(score: real): (f: Feedback)
    ensures f == Excellent <==> 0.85 <= score
    ensures f == NearlyCorrect <==> 0.7 <= score < 0.85
    ensures f == PartiallyCorrect <==> 0.5 <= score < 0.7
    ensures f == Weak <==> score < 0.5
  {
    if score >= 0.85 then Excellent
    else if score >= 0.7 then NearlyCorrect
    else if score >= 0.50 then PartiallyCorrect
    else Weak
  }

  /** A higher score never gets a worse message. */
  lemma FeedbackMonotone(s1: real, s2: real)
    requires s1 <= s2
    ensures FeedbackFromScore(s1).Rank() <= FeedbackFromScore(s2).Rank()
  {
  }

  /** The four messages have four different lengths. */
  lemma MessageLength(f: Feedback)
    ensures |f.Message()| == match f
      case Excellent => 62
      case NearlyCorrect => 46
      case PartiallyCorrect => 49
      case Weak => 44
  {
    match f
    case Excellent =>
    case NearlyCorrect =>
    case PartiallyCorrect =>
    case Weak =>
  }

  /** The four messages are different texts, so the message tells the band. */
  lemma MessagesDistinct(f: Feedback, g: Feedback)
    ensures f.Message() == g.Message() <==> f == g
  {
    if f != g {
      MessageLength(f);
      MessageLength(g);
      assert |f.Message()| != |g.Message()|;
    }
  }

  // ---------------------------------------------------------------------------
  // Rounding to hundredths

  function Abs(x: real): (r: real)
    ensures r >= 0.0 && (r == x || r == -x)
  {
    if x < 0.0 then -x else x
  }

  /** `round(x, 2) * 100`: the integer nearest to `100 x`, the even one on a tie. */
  function RoundHundredths(x: real): (k: int)
    ensures Abs(k as real - 100.0 * x) <= 0.5
    ensures Abs(k as real - 100.0 * x) == 0.5 ==> k % 2 == 0
  {
    var y := 100.0 * x;
    var f := y.Floor;
    var frac := y - f as real;
    if frac < 0.5 then f
    else if frac > 0.5 then f + 1
    else if f % 2 == 0 then f
    else f + 1
  }

  /** The rounding contract has one solution: any integer within a half of `100 x`, even on
      a tie, is `RoundHundredths(x)`. */
  lemma RoundUnique(x: real, j: int)
    requires Abs(j as real - 100.0 * x) <= 0.5
    requires Abs(j as real - 100.0 * x) == 0.5 ==> j % 2 == 0
    ensures j == RoundHundredths(x)
  {
    var k := RoundHundredths(x);
    var y := 100.0 * x;
    assert -1.0 <= j as real - k as real <= 1.0;
  }

  /** Rounding never reverses the order of two values. */
  lemma RoundMonotone(x: real, y: real)
    requires x <= y
    ensures RoundHundredths(x) <= RoundHundredths(y)
  {
    if x < y {
      var kx, ky := RoundHundredths(x), RoundHundredths(y);
      assert kx as real <= 100.0 * x + 0.5 < 100.0 * y + 0.5;
      assert ky as real >= 100.0 * y - 0.5;
    }
  }

  /** `round(x, 2)`: a whole number of hundredths, within half a hundredth of `x`, and an even
      number of hundredths on a tie. */
  function Round2(x: real): (r: real)
    ensures Abs(r - x) <= 0.005
    ensures (100.0 * r).Floor as real == 100.0 * r
    ensures Abs(r - x) == 0.005 ==> (100.0 * r).Floor % 2 == 0
  {
    var k := RoundHundredths(x);
    Hundredths(x, k);
    k as real / 100.0
  }

  /** `k` hundredths are as far from `x` as `k` is from `100 x`, scaled down a hundredfold. */
  lemma Hundredths(x: real, k: int)
    ensures 100.0 * (k as real / 100.0) == k as real
    ensures (100.0 * (k as real / 100.0)).Floor == k
    ensures Abs(k as real / 100.0 - x) == Abs(k as real - 100.0 * x) / 100.0
  {
    var r, d := k as real / 100.0, k as real - 100.0 * x;
    assert r - x == d / 100.0;
    if d < 0.0 {
      assert Abs(r - x) == -(d / 100.0);
    }
  }

  /** Rounding to hundredths never reverses the order of two values. */
  lemma Round2Monotone(x: real, y: real)
    requires x <= y
    ensures Round2(x) <= Round2(y)
  {
    RoundMonotone(x, y);
  }

  /** A value that already has at most two decimals is left as it is. */
  lemma Round2Exact(x: real, k: int)
    requires 100.0 * x == k as real
    ensures Round2(x) == x
  {
    RoundUnique(x, k);
  }

  /** Rounding keeps a value between 0 and 100 between 0 and 100. */
  lemma Round2Range(x: real)
    requires 0.0 <= x <= 100.0
    ensures 0.0 <= Round2(x) <= 100.0
  {
    Round2Monotone(0.0, x);
    Round2Monotone(x, 100.0);
    Round2Exact(0.0, 0);
    Round2Exact(100.0, 10000);
  }

  const DefaultMaxMarks: real := 10.0

  /** `mark_from_score`: the score scaled to the question's marks, to two decimals. */
  function MarkFromScore(score: real, maxMarks: real): (mark: real)
    ensures Abs(mark - score * maxMarks) <= 0.005
    ensures (100.0 * mark).Floor as real == 100.0 * mark
  {
    Round2(score * maxMarks)
  }

  /** For a fixed number of marks, a better score never gets fewer marks. */
  lemma MarkMonotone(s1: real, s2: real, maxMarks: real)
    requires s1 <= s2 && 0.0 <= maxMarks
    ensures MarkFromScore(s1, maxMarks) <= MarkFromScore(s2, maxMarks)
  {
    Round2ScaledMonotone(s1, s2, maxMarks);
  }

  /** Scaling by a non-negative weight, then rounding, keeps the order of two scores. */
  lemma Round2ScaledMonotone(s1: real, s2: real, w: real)
    requires s1 <= s2 && 0.0 <= w
    ensures Round2(s1 * w) <= Round2(s2 * w)
  {
    ScaleLe(s1, s2, w);
    Round2Monotone(s1 * w, s2 * w);
  }

  /** A zero score earns no marks, whatever the marks are; a perfect score earns the full
      marks whenever they are a whole number of hundredths. */
  lemma MarkEnds(maxMarks: real)
    ensures MarkFromScore(0.0, maxMarks) == 0.0
    ensures (100.0 * maxMarks).Floor as real == 100.0 * maxMarks ==> MarkFromScore(1.0, maxMarks) == maxMarks
  {
    assert 0.0 * maxMarks == 0.0;
    Round2Exact(0.0, 0);
    if (100.0 * maxMarks).Floor as real == 100.0 * maxMarks {
      assert 1.0 * maxMarks == maxMarks;
      Round2Exact(maxMarks, (100.0 * maxMarks).Floor);
    }
  }
}
