/** The question-delimiter pattern of `parse_questions_flexible`,

      (?:^|\n|\s)([Qq]?\s*\d+\s*[\).:])

    matched by hand with Python `re.finditer` semantics: a match starts at `s` when either
    `s == 0` and the group matches at 0 (the `^` alternative, tried first), or `text[s]` is
    whitespace and the group matches at `s + 1` (`\n` is a special case of `\s`).
    The group has exactly one way to match, so no backtracking is needed; `GroupAt` proves it. */
module Delimiter {
  import opened Wrappers
  import opened Collections
  import opened PyChars

  predicate IsQ(c: char) {
    c == 'Q' || c == 'q'
  }

  /** The closing character class `[\).:]`. */
  predicate IsCloser(c: char) {
    c == ')' || c == '.' || c == ':'
  }

  /** Where the capturing group's digits sit, and where the group ends (exclusive). */
  datatype Group = Group(digitsStart: nat, digitsEnd: nat, end: nat)

  /** One `re.finditer` match: the whole match is `text[start..end]`, the capturing group
      is `text[group..end]`, and its digit run is `text[digitsStart..digitsEnd]`. */
  datatype Match = Match(start: nat, group: nat, digitsStart: nat, digitsEnd: nat, end: nat)
  {
    function GroupPart(): Group {
      Group(digitsStart, digitsEnd, end)
    }
  }

  ghost predicate AllSpace(text: string, lo: int, hi: int) {
    forall k :: lo <= k < hi && 0 <= k < |text| ==> IsSpace(text[k])
  }

  ghost predicate AllDigits(text: string, lo: int, hi: int) {
    forall k :: lo <= k < hi && 0 <= k < |text| ==> IsDigit(text[k])
  }

  /** Declarative reading of `[Qq]?\s*\d+\s*[\).:]` matching `text[p..g.end]`. */
  ghost predicate GroupShape(text: string, p: nat, g: Group) {
    && p <= g.digitsStart < g.digitsEnd < g.end <= |text|
    && (AllSpace(text, p, g.digitsStart) || (IsQ(text[p]) && AllSpace(text, p + 1, g.digitsStart)))
    && AllDigits(text, g.digitsStart, g.digitsEnd)
    && AllSpace(text, g.digitsEnd, g.end - 1)
    && IsCloser(text[g.end - 1])
  }

  /** Declarative reading of the whole pattern matching at `s`. */
  ghost predicate DelimiterShape(text: string, s: nat, m: Match) {
    && m.start == s
    && ((s == 0 && m.group == 0) || (s < |text| && IsSpace(text[s]) && m.group == s + 1))
    && GroupShape(text, m.group, m.GroupPart())
  }

  function SkipSpaces(text: string, p: nat): (q: nat)
    requires p <= |text|
    ensures p <= q <= |text|
    ensures AllSpace(text, p, q)
    ensures q == |text| || !IsSpace(text[q])
    decreases |text| - p
  {
    if p < |text| && IsSpace(text[p]) then SkipSpaces(text, p + 1) else p
  }

  function SkipDigits(text: string, p: nat): (q: nat)
    requires p <= |text|
    ensures p <= q <= |text|
    ensures AllDigits(text, p, q)
    ensures q == |text| || !IsDigit(text[q])
    decreases |text| - p
  {
    if p < |text| && IsDigit(text[p]) then SkipDigits(text, p + 1) else p
  }

  /** A whitespace run ending at a non-whitespace character ends where `SkipSpaces` stops. */
  lemma SkipSpacesStops(text: string, p: nat, q: nat)
    requires p <= q < |text|
    requires AllSpace(text, p, q) && !IsSpace(text[q])
    ensures SkipSpaces(text, p) == q
    decreases q - p
  {
    if p < q {
      SkipSpacesStops(text, p + 1, q);
    }
  }

  lemma SkipDigitsStops(text: string, p: nat, q: nat)
    requires p <= q <= |text|
    requires AllDigits(text, p, q) && (q == |text| || !IsDigit(text[q]))
    ensures SkipDigits(text, p) == q
    decreases q - p
  {
    if p < q {
      SkipDigitsStops(text, p + 1, q);
    }
  }

  /** The capturing group tried at `p`: it matches exactly when the declarative shape
      holds, and then in exactly one way. */
  function GroupAt(text: string, p: nat): (r: Option<Group>)
    requires p <= |text|
    ensures r.Some? ==> GroupShape(text, p, r.value)
    ensures forall g :: GroupShape(text, p, g) ==> r == Some(g)
  {
    var q := if p < |text| && IsQ(text[p]) then p + 1 else p;
    var a := SkipSpaces(text, q);
    var b := SkipDigits(text, a);
    var c := SkipSpaces(text, b);
    GroupUnique(text, p, q, a, b, c);
    if a < b && c < |text| && IsCloser(text[c]) then Some(Group(a, b, c + 1)) else None
  }

  /** Every reading of the group agrees with the greedy left-to-right one. */
  lemma GroupUnique(text: string, p: nat, q: nat, a: nat, b: nat, c: nat)
    requires p <= |text|
    requires q == if p < |text| && IsQ(text[p]) then p + 1 else p
    requires a == SkipSpaces(text, q) && b == SkipDigits(text, a) && c == SkipSpaces(text, b)
    ensures forall g :: GroupShape(text, p, g) ==> g == Group(a, b, c + 1) && a < b && c < |text| && IsCloser(text[c])
  {
    forall g | GroupShape(text, p, g)
      ensures g == Group(a, b, c + 1) && a < b && c < |text| && IsCloser(text[c])
    {
      var d := g.digitsStart;
      assert IsDigit(text[d]);
      if IsQ(text[p]) {
        assert p < d && !IsSpace(text[p]);
        assert AllSpace(text, p + 1, d);
        SkipSpacesStops(text, p + 1, d);
      } else {
        SkipSpacesStops(text, p, d);
      }
      assert a == d;
      var e := g.digitsEnd;
      assert !IsDigit(text[e]) by {
        if e < g.end - 1 { assert IsSpace(text[e]); }
      }
      SkipDigitsStops(text, d, e);
      SkipSpacesStops(text, e, g.end - 1);
    }
  }

  /** Whether the delimiter pattern matches starting exactly at `s`. */
  function MatchAt(text: string, s: nat): (r: Option<Match>)
    requires s <= |text|
    ensures r.Some? ==> DelimiterShape(text, s, r.value)
    ensures r.Some? ==> r.value.start == s < r.value.end <= |text|
    ensures r.None? ==> forall m :: !DelimiterShape(text, s, m)
    ensures r.Some? ==> forall m :: DelimiterShape(text, s, m) ==> m.GroupPart() == r.value.GroupPart()
  {
    var atStart := if s == 0 then GroupAt(text, 0) else None;
    var afterSpace := if s < |text| && IsSpace(text[s]) then GroupAt(text, s + 1) else None;
    ShapesShareGroup(text, s);
    if atStart.Some? then
      Some(Match(s, 0, atStart.value.digitsStart, atStart.value.digitsEnd, atStart.value.end))
    else if afterSpace.Some? then
      Some(Match(s, s + 1, afterSpace.value.digitsStart, afterSpace.value.digitsEnd, afterSpace.value.end))
    else
      NoShape(text, s);
      None
  }

  /** When neither alternative finds its group, the pattern does not match at `s`. */
  lemma NoShape(text: string, s: nat)
    requires s <= |text|
    requires s == 0 ==> GroupAt(text, 0).None?
    requires s < |text| && IsSpace(text[s]) ==> GroupAt(text, s + 1).None?
    ensures forall m :: !DelimiterShape(text, s, m)
  {
    forall m: Match | m.start == s && ((s == 0 && m.group == 0) || (s < |text| && IsSpace(text[s]) && m.group == s + 1))
      ensures !GroupShape(text, m.group, m.GroupPart())
    {
      var r := GroupAt(text, m.group);
      assert r.None?;
    }
  }

  /** At position 0 with leading whitespace both alternatives can match, but they find the same group. */
  lemma ShapesShareGroup(text: string, s: nat)
    requires s <= |text|
    ensures forall m1, m2 :: DelimiterShape(text, s, m1) && DelimiterShape(text, s, m2) ==> m1.GroupPart() == m2.GroupPart()
  {
    forall m1, m2 | DelimiterShape(text, s, m1) && DelimiterShape(text, s, m2)
      ensures m1.GroupPart() == m2.GroupPart()
    {
      if m1.group == m2.group {
        var r := GroupAt(text, m1.group);
      } else {
        assert s == 0 && IsSpace(text[0]);
        var g := if m1.group == 0 then m1.GroupPart() else m2.GroupPart();
        assert GroupShape(text, 0, g);
        assert !IsQ(text[0]);
        assert GroupShape(text, 1, g);
        var r := GroupAt(text, 1);
      }
    }
  }

  /** No delimiter match starts anywhere in `[lo, hi)`. */
  ghost predicate NoMatchIn(text: string, lo: int, hi: int) {
    forall s: nat :: lo <= s < hi && s <= |text| ==> MatchAt(text, s).None?
  }

  /** `ms` is what `re.finditer` yields when scanning from `pos`: the first match is the
      leftmost one at or after `pos`, the rest is the scan resumed at its end, and when
      nothing matches from `pos` on the scan is empty. */
  ghost predicate IsScan(text: string, pos: nat, ms: seq<Match>)
    decreases |ms|
  {
    if |ms| == 0 then NoMatchIn(text, pos, |text| + 1)
    else
      && pos <= ms[0].start <= |text|
      && MatchAt(text, ms[0].start) == Some(ms[0])
      && NoMatchIn(text, pos, ms[0].start)
      && IsScan(text, ms[0].end, ms[1..])
  }

  /** The leftmost match starting at or after `pos`. */
  function NextMatch(text: string, pos: nat): (r: Option<Match>)
    requires pos <= |text|
    ensures r.Some? ==> pos <= r.value.start <= |text| && MatchAt(text, r.value.start) == r
    ensures r.Some? ==> NoMatchIn(text, pos, r.value.start)
    ensures r.None? ==> NoMatchIn(text, pos, |text| + 1)
    decreases |text| - pos
  {
    var here := MatchAt(text, pos);
    if here.Some? then here
    else if pos == |text| then None
    else
      var r := NextMatch(text, pos + 1);
      NoMatchExtend(text, pos, if r.Some? then r.value.start else |text| + 1);
      r
  }

  /** A position without a match extends a match-free range by one to the left. */
  lemma NoMatchExtend(text: string, pos: nat, hi: int)
    requires pos <= |text| && MatchAt(text, pos).None? && NoMatchIn(text, pos + 1, hi)
    ensures NoMatchIn(text, pos, hi)
  {
  }

  /** `list(re.finditer(pattern, text[pos:]))`, with offsets into `text`. */
  function FindAll(text: string, pos: nat): (ms: seq<Match>)
    requires pos <= |text|
    ensures IsScan(text, pos, ms)
    decreases |text| - pos
  {
    var next := NextMatch(text, pos);
    if next.None? then []
    else
      var m := next.value;
      [m] + FindAll(text, m.end)
  }

  /** The scan specification determines the matches: `re.finditer` has exactly one answer. */
  lemma {:induction false} ScanUnique(text: string, pos: nat, ms1: seq<Match>, ms2: seq<Match>)
    requires IsScan(text, pos, ms1) && IsScan(text, pos, ms2)
    ensures ms1 == ms2
    decreases |ms1|
  {
    if |ms1| > 0 {
      ScanHead(text, pos, ms1, ms2);
      ScanUnique(text, ms1[0].end, ms1[1..], ms2[1..]);
      SameHeadTail(ms1, ms2);
    } else if |ms2| > 0 {
      ScanHead(text, pos, ms2, ms1);
    }
  }

  /** Two scans from the same position find the same first match. */
  lemma ScanHead(text: string, pos: nat, ms1: seq<Match>, ms2: seq<Match>)
    requires IsScan(text, pos, ms1) && IsScan(text, pos, ms2)
    requires |ms1| > 0
    ensures |ms2| > 0 && ms1[0] == ms2[0]
  {
    var a := ms1[0];
    assert MatchAt(text, a.start).Some?;
    if |ms2| > 0 {
      var b := ms2[0];
      assert MatchAt(text, b.start).Some?;
      assert !(a.start < b.start);
      assert !(b.start < a.start);
    }
  }

  /** Matches come in order, do not overlap, and lie inside the text after `pos`. */
  lemma {:induction false} ScanOrdered(text: string, pos: nat, ms: seq<Match>)
    requires IsScan(text, pos, ms)
    ensures forall i :: 0 <= i < |ms| ==> pos <= ms[i].start < ms[i].end <= |text|
    ensures forall i :: 0 <= i < |ms| ==> MatchAt(text, ms[i].start) == Some(ms[i])
    ensures forall i :: 0 <= i < |ms| - 1 ==> ms[i].end <= ms[i + 1].start
    decreases |ms|
  {
    if |ms| > 0 {
      var m, rest := ms[0], ms[1..];
      ScanOrdered(text, m.end, rest);
      forall i | 0 <= i < |ms|
        ensures pos <= ms[i].start < ms[i].end <= |text| && MatchAt(text, ms[i].start) == Some(ms[i])
      {
        if 0 < i { assert ms[i] == rest[i - 1]; }
      }
      forall i | 0 <= i < |ms| - 1
        ensures ms[i].end <= ms[i + 1].start
      {
        assert ms[i + 1] == rest[i];
        if 0 < i { assert ms[i] == rest[i - 1]; }
      }
    }
  }

  /** The scan is empty exactly when no delimiter matches anywhere from `pos` on. */
  lemma ScanEmptyIff(text: string, pos: nat)
    requires pos <= |text|
    ensures FindAll(text, pos) == [] <==> NoMatchIn(text, pos, |text| + 1)
  {
    var ms := FindAll(text, pos);
    if ms != [] {
      assert MatchAt(text, ms[0].start).Some?;
    }
  }
}
