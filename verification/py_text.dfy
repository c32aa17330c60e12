/** The Python string primitives both normalisers are built from: `re.sub(r'\s+', ' ', s)`,
    `str.strip()`, `str.split()` and `' '.join(...)`, with the laws that connect them. */
module PyText {
  import opened PyChars
  import opened Collections

  /** `str.lstrip()`: drop the leading whitespace run. */
  function LStrip(s: string): (r: string)
    ensures |r| <= |s|
    ensures r == [] || !IsSpace(r[0])
  {
    if |s| > 0 && IsSpace(s[0]) then LStrip(s[1..]) else s
  }

  /** What `LStrip` removed is a whitespace prefix. */
  lemma {:induction false} LStripShape(s: string)
    ensures LStrip(s) == s[|s| - |LStrip(s)|..]
    ensures forall k :: 0 <= k < |s| - |LStrip(s)| ==> IsSpace(s[k])
    decreases |s|
  {
    if |s| > 0 && IsSpace(s[0]) {
      LStripShape(s[1..]);
    }
  }

  /** `str.rstrip()`: drop the trailing whitespace run. */
  function RStrip(s: string): (r: string)
    ensures |r| <= |s|
    ensures r == [] || !IsSpace(r[|r| - 1])
  {
    if |s| > 0 && IsSpace(s[|s| - 1]) then RStrip(s[..|s| - 1]) else s
  }

  /** What `RStrip` removed is a whitespace suffix. */
  lemma {:induction false} RStripShape(s: string)
    ensures RStrip(s) == s[..|RStrip(s)|]
    ensures forall k :: |RStrip(s)| <= k < |s| ==> IsSpace(s[k])
    decreases |s|
  {
    if |s| > 0 && IsSpace(s[|s| - 1]) {
      var t := s[..|s| - 1];
      RStripShape(t);
      var r := RStrip(t);
      assert RStrip(s) == r;
      assert t[..|r|] == s[..|r|];
      forall k | |r| <= k < |s|
        ensures IsSpace(s[k])
      {
        if k < |s| - 1 {
          assert s[k] == t[k];
        }
      }
    } else {
      assert s[..|s|] == s;
    }
  }

  /** `str.strip()`: drop both whitespace runs. */
  function Strip(s: string): (r: string)
    ensures |r| <= |s|
    ensures r == [] || (!IsSpace(r[0]) && !IsSpace(r[|r| - 1]))
  {
    var t := LStrip(s);
    RStripShape(t);
    RStrip(t)
  }

  /** `Strip(s)` is the slice of `s` between a whitespace prefix and a whitespace suffix. */
  lemma StripShape(s: string)
    ensures |s| - |LStrip(s)| + |Strip(s)| <= |s|
    ensures Strip(s) == s[|s| - |LStrip(s)|..|s| - |LStrip(s)| + |Strip(s)|]
    ensures forall k :: 0 <= k < |s| - |LStrip(s)| ==> IsSpace(s[k])
    ensures forall k :: |s| - |LStrip(s)| + |Strip(s)| <= k < |s| ==> IsSpace(s[k])
  {
    LStripShape(s);
    var a := |s| - |LStrip(s)|;
    assert LStrip(s) == s[a..];
    RStripSlice(s, a);
    var r := RStrip(s[a..]);
    assert Strip(s) == r;
  }

  /** `RStrip` of a suffix of `s`, stated in positions of `s`. */
  lemma RStripSlice(s: string, a: nat)
    requires a <= |s|
    ensures a + |RStrip(s[a..])| <= |s|
    ensures RStrip(s[a..]) == s[a..a + |RStrip(s[a..])|]
    ensures forall k :: a + |RStrip(s[a..])| <= k < |s| ==> IsSpace(s[k])
  {
    var t := s[a..];
    RStripShape(t);
    var r := RStrip(t);
    assert t[..|r|] == s[a..a + |r|];
    forall k | a + |r| <= k < |s|
      ensures IsSpace(s[k])
    {
      assert s[k] == t[k - a];
    }
  }

  /** Positions `i` and `i + 1` both hold whitespace. */
  ghost predicate Doubled(s: string, i: int)
    requires 0 <= i < |s| - 1
  {
    IsSpace(s[i]) && IsSpace(s[i + 1])
  }

  /** No whitespace other than `' '`, and never two whitespace characters in a row. */
  ghost predicate Collapsed(s: string) {
    && (forall i :: 0 <= i < |s| && IsSpace(s[i]) ==> s[i] == ' ')
    && (forall i :: 0 <= i < |s| - 1 ==> !Doubled(s, i))
  }

  /** Words separated by single spaces: collapsed, and no whitespace at either end. */
  ghost predicate Normal(s: string) {
    Collapsed(s) && (|s| > 0 ==> !IsSpace(s[0]) && !IsSpace(s[|s| - 1]))
  }

  /** `re.sub(r'\s+', ' ', s)`: every maximal whitespace run becomes one space. */
  function Collapse(s: string): (r: string)
    ensures |r| <= |s|
    ensures |s| > 0 ==> |r| > 0 && (IsSpace(s[0]) <==> IsSpace(r[0]))
    ensures |s| > 0 && !IsSpace(s[0]) ==> r[0] == s[0]
    ensures Collapsed(r)
    decreases |s|
  {
    if |s| == 0 then []
    else if IsSpace(s[0]) then
      var r := Collapse(LStrip(s[1..]));
      ConsCollapsed(' ', r);
      [' '] + r
    else
      var r := Collapse(s[1..]);
      ConsCollapsed(s[0], r);
      [s[0]] + r
  }

  lemma ConsCollapsed(c: char, x: string)
    requires Collapsed(x)
    requires IsSpace(c) ==> c == ' ' && (|x| == 0 || !IsSpace(x[0]))
    ensures Collapsed([c] + x)
  {
    var y := [c] + x;
    forall i | 0 <= i < |y| - 1
      ensures !Doubled(y, i)
    {
      if i > 0 {
        assert !Doubled(x, i - 1);
      }
    }
  }

  /** A token of `str.split()`: non-empty and free of whitespace. */
  ghost predicate IsWord(w: string) {
    |w| > 0 && forall k :: 0 <= k < |w| ==> !IsSpace(w[k])
  }

  /** Length of the leading non-whitespace run of `t`. */
  function WordEnd(t: string): (n: nat)
    ensures n <= |t|
    ensures forall k :: 0 <= k < n ==> !IsSpace(t[k])
    ensures n == |t| || IsSpace(t[n])
  {
    if |t| == 0 || IsSpace(t[0]) then 0 else 1 + WordEnd(t[1..])
  }

  /** `str.split()` with no separator: the whitespace-free runs of `s`, in order. */
  function Split(s: string): (ws: seq<string>)
    ensures forall i :: 0 <= i < |ws| ==> IsWord(ws[i])
    decreases |s|
  {
    var t := LStrip(s);
    if |t| == 0 then []
    else
      var n := WordEnd(t);
      [t[..n]] + Split(t[n..])
  }

  /** `' '.join(ws)`. */
  function Join(ws: seq<string>): string {
    if |ws| == 0 then "" else if |ws| == 1 then ws[0] else ws[0] + " " + Join(ws[1..])
  }

  /** The characters of `s` that satisfy `p`, in order. */
  function Filter(p: char -> bool, s: string): (r: string)
    ensures |r| <= |s|
    ensures forall k :: 0 <= k < |r| ==> p(r[k])
  {
    if |s| == 0 then [] else (if p(s[0]) then [s[0]] else []) + Filter(p, s[1..])
  }

  // ---------------------------------------------------------------------------
  // Filter laws

  lemma {:induction false} FilterConcat(p: char -> bool, a: string, b: string)
    ensures Filter(p, a + b) == Filter(p, a) + Filter(p, b)
    decreases |a|
  {
    if |a| == 0 {
      assert a + b == b;
    } else {
      assert (a + b)[1..] == a[1..] + b;
      FilterConcat(p, a[1..], b);
    }
  }

  lemma {:induction false} FilterSpaces(p: char -> bool, s: string)
    requires forall c :: p(c) ==> !IsSpace(c)
    requires forall k :: 0 <= k < |s| ==> IsSpace(s[k])
    ensures Filter(p, s) == []
    decreases |s|
  {
    if |s| > 0 {
      FilterSpaces(p, s[1..]);
    }
  }

  lemma {:induction false} FilterLStrip(p: char -> bool, s: string)
    requires forall c :: p(c) ==> !IsSpace(c)
    ensures Filter(p, LStrip(s)) == Filter(p, s)
    decreases |s|
  {
    if |s| > 0 && IsSpace(s[0]) {
      FilterLStrip(p, s[1..]);
    }
  }

  /** Stripping only removes whitespace, so a filter that keeps no whitespace sees no change. */
  lemma FilterStrip(p: char -> bool, s: string)
    requires forall c :: p(c) ==> !IsSpace(c)
    ensures Filter(p, Strip(s)) == Filter(p, s)
  {
    var t := LStrip(s);
    var r := RStrip(t);
    RStripShape(t);
    assert t == r + t[|r|..];
    FilterConcat(p, r, t[|r|..]);
    FilterSpaces(p, t[|r|..]);
    FilterLStrip(p, s);
  }

  /** Collapsing only rewrites whitespace runs, so a filter that keeps no whitespace sees no change. */
  lemma {:induction false} FilterCollapse(p: char -> bool, s: string)
    requires forall c :: p(c) ==> !IsSpace(c)
    ensures Filter(p, Collapse(s)) == Filter(p, s)
    decreases |s|
  {
    if |s| == 0 {
    } else if IsSpace(s[0]) {
      var t := LStrip(s[1..]);
      assert Collapse(s) == [' '] + Collapse(t);
      FilterCollapse(p, t);
      FilterLStrip(p, s[1..]);
      assert Filter(p, [' '] + Collapse(t)) == Filter(p, Collapse(t));
    } else {
      FilterCollapse(p, s[1..]);
      assert ([s[0]] + Collapse(s[1..]))[1..] == Collapse(s[1..]);
    }
  }

  // ---------------------------------------------------------------------------
  // Split laws

  /** A leading whitespace character does not change the words. */
  lemma SplitSpaceCons(c: char, s: string)
    requires IsSpace(c)
    ensures Split([c] + s) == Split(s)
  {
    assert ([c] + s)[1..] == s;
    assert LStrip([c] + s) == LStrip(s);
  }

  lemma SplitLStrip(s: string)
    ensures Split(LStrip(s)) == Split(s)
  {
    assert LStrip(LStrip(s)) == LStrip(s);
  }

  lemma {:induction false} WordEndOfWord(w: string, y: string)
    requires IsWord(w)
    requires |y| == 0 || IsSpace(y[0])
    ensures WordEnd(w + y) == |w|
    decreases |w|
  {
    if |w| > 1 {
      assert (w + y)[1..] == w[1..] + y;
      WordEndOfWord(w[1..], y);
    } else {
      assert (w + y)[1..] == y;
    }
  }

  /** A word followed by whitespace (or nothing) is split off as the first token. */
  lemma SplitWordCons(w: string, y: string)
    requires IsWord(w)
    requires |y| == 0 || IsSpace(y[0])
    ensures Split(w + y) == [w] + Split(y)
  {
    assert LStrip(w + y) == w + y;
    WordEndOfWord(w, y);
    assert (w + y)[..|w|] == w;
    assert (w + y)[|w|..] == y;
  }

  /** A single word splits into itself. */
  lemma SplitWord(w: string)
    requires IsWord(w)
    ensures Split(w) == [w]
  {
    SplitWordCons(w, "");
    assert w + "" == w;
  }

  /** Collapsing copies a leading word unchanged. */
  lemma {:induction false} CollapseWord(s: string)
    requires |s| > 0 && !IsSpace(s[0])
    ensures Collapse(s) == s[..WordEnd(s)] + Collapse(s[WordEnd(s)..])
    decreases |s|
  {
    var n := WordEnd(s);
    var t := s[1..];
    assert Collapse(s) == [s[0]] + Collapse(t);
    if |t| > 0 && !IsSpace(t[0]) {
      var m := WordEnd(t);
      assert n == m + 1;
      CollapseWord(t);
      assert t[m..] == s[n..];
      assert [s[0]] + t[..m] == s[..n];
      AppendAssoc([s[0]], t[..m], Collapse(t[m..]));
    } else {
      assert n == 1;
      assert s[..n] == [s[0]];
    }
  }

  /** `re.sub(r'\s+', ' ', s).split() == s.split()`. */
  lemma {:induction false} SplitCollapse(s: string)
    ensures Split(Collapse(s)) == Split(s)
    decreases |s|
  {
    if |s| == 0 {
    } else if IsSpace(s[0]) {
      var t := LStrip(s[1..]);
      SplitSpaceCons(' ', Collapse(t));
      SplitCollapse(t);
      SplitLStrip(s[1..]);
      assert s == [s[0]] + s[1..];
      SplitSpaceCons(s[0], s[1..]);
    } else {
      var n := WordEnd(s);
      CollapseWord(s);
      SplitWordCons(s[..n], Collapse(s[n..]));
      SplitCollapse(s[n..]);
      assert LStrip(s) == s;
    }
  }

  lemma {:induction false} SplitAllSpace(s: string)
    requires forall k :: 0 <= k < |s| ==> IsSpace(s[k])
    ensures Split(s) == []
  {
    LStripShape(s);
    assert |LStrip(s)| == 0;
  }

  /** Trailing whitespace does not change the words. */
  lemma {:induction false} SplitAppendSpaces(z: string, sp: string)
    requires forall k :: 0 <= k < |sp| ==> IsSpace(sp[k])
    ensures Split(z + sp) == Split(z)
    decreases |z|
  {
    var t := LStrip(z);
    if |t| == 0 {
      LStripShape(z);
      assert forall k :: 0 <= k < |z + sp| ==> IsSpace((z + sp)[k]) by {
        forall k | 0 <= k < |z + sp| ensures IsSpace((z + sp)[k]) {
          if k >= |z| { assert (z + sp)[k] == sp[k - |z|]; }
        }
      }
      SplitAllSpace(z + sp);
      SplitAllSpace(z);
    } else {
      LStripPrefix(z, sp);
      assert LStrip(z + sp) == t + sp;
      var n := WordEnd(t);
      WordEndAppend(t, sp);
      assert (t + sp)[..n] == t[..n];
      assert (t + sp)[n..] == t[n..] + sp;
      SplitAppendSpaces(t[n..], sp);
    }
  }

  lemma {:induction false} LStripPrefix(z: string, y: string)
    requires |LStrip(z)| > 0
    ensures LStrip(z + y) == LStrip(z) + y
    decreases |z|
  {
    if IsSpace(z[0]) {
      assert (z + y)[1..] == z[1..] + y;
      LStripPrefix(z[1..], y);
    }
  }

  lemma {:induction false} WordEndAppend(t: string, y: string)
    requires |y| == 0 || IsSpace(y[0]) || WordEnd(t) < |t|
    ensures WordEnd(t + y) == WordEnd(t)
    decreases |t|
  {
    if |t| == 0 {
      assert t + y == y;
    } else if !IsSpace(t[0]) {
      assert (t + y)[1..] == t[1..] + y;
      WordEndAppend(t[1..], y);
    }
  }

  /** `s.strip().split() == s.split()`. */
  lemma SplitStrip(s: string)
    ensures Split(Strip(s)) == Split(s)
  {
    var t := LStrip(s);
    var r := RStrip(t);
    RStripShape(t);
    assert t == r + t[|r|..];
    SplitAppendSpaces(r, t[|r|..]);
    SplitLStrip(s);
  }

  /** Whitespace in the middle separates the words on either side. */
  lemma {:induction false} SplitSeparator(a: string, c: char, b: string)
    requires IsSpace(c)
    ensures Split(a + [c] + b) == Split(a) + Split(b)
    decreases |a|
  {
    var t := LStrip(a);
    if |t| == 0 {
      SplitSeparatorBlank(a, c, b);
    } else {
      var n := WordEnd(t);
      var y := [c] + b;
      assert Split(a + [c] + b) == [t[..n]] + Split(t[n..] + [c] + b) by {
        assert a + [c] + b == a + y;
        LStripPrefix(a, y);
        WordEndAppend(t, y);
        SplitUnfold(a + y);
        assert (t + y)[..n] == t[..n];
        assert (t + y)[n..] == t[n..] + [c] + b;
      }
      assert Split(a) == [t[..n]] + Split(t[n..]) by {
        SplitUnfold(a);
      }
      SplitSeparator(t[n..], c, b);
      AppendAssoc([t[..n]], Split(t[n..]), Split(b));
    }
  }

  lemma SplitSeparatorBlank(a: string, c: char, b: string)
    requires IsSpace(c) && |LStrip(a)| == 0
    ensures Split(a + [c] + b) == Split(a) + Split(b)
  {
    LStripShape(a);
    SplitAllSpace(a);
    assert forall k :: 0 <= k < |a + [c]| ==> IsSpace((a + [c])[k]);
    SplitLeadingSpaces(a + [c], b);
  }

  /** The first word of `s` and the words after it. */
  lemma SplitUnfold(s: string)
    requires |LStrip(s)| > 0
    ensures Split(s) == [LStrip(s)[..WordEnd(LStrip(s))]] + Split(LStrip(s)[WordEnd(LStrip(s))..])
  {
  }

  lemma {:induction false} SplitLeadingSpaces(sp: string, b: string)
    requires forall k :: 0 <= k < |sp| ==> IsSpace(sp[k])
    ensures Split(sp + b) == Split(b)
    decreases |sp|
  {
    if |sp| > 0 {
      assert sp + b == [sp[0]] + (sp[1..] + b);
      SplitSpaceCons(sp[0], sp[1..] + b);
      SplitLeadingSpaces(sp[1..], b);
    } else {
      assert sp + b == b;
    }
  }

  // ---------------------------------------------------------------------------
  // Collapse, strip and join

  lemma JoinCons(w: string, ws: seq<string>)
    requires |ws| > 0
    ensures Join([w] + ws) == w + " " + Join(ws)
  {
    assert ([w] + ws)[1..] == ws;
  }

  /** A normal string that is not a single word continues after its first word with one
      space and a normal non-empty remainder. */
  lemma NormalRest(s: string)
    requires Normal(s) && |s| > 0 && WordEnd(s) < |s|
    ensures 0 < WordEnd(s) && WordEnd(s) + 1 < |s| && s[WordEnd(s)] == ' '
    ensures Normal(s[WordEnd(s) + 1..])
  {
    var n := WordEnd(s);
    assert n > 0 by {
      assert !IsSpace(s[0]);
    }
    assert n < |s| - 1 by {
      assert !IsSpace(s[|s| - 1]);
    }
    assert !Doubled(s, n);
    NormalSuffix(s, n + 1);
  }

  /** A suffix of a normal string that starts at a non-space is normal. */
  lemma NormalSuffix(s: string, m: nat)
    requires Normal(s) && m < |s| && !IsSpace(s[m])
    ensures Normal(s[m..])
  {
    var rest := s[m..];
    forall i | 0 <= i < |rest| - 1
      ensures !Doubled(rest, i)
    {
      assert !Doubled(s, m + i);
    }
    forall i | 0 <= i < |rest| && IsSpace(rest[i])
      ensures rest[i] == ' '
    {
      assert rest[i] == s[m + i];
    }
  }

  /** The words of a string that starts with a word: that word, then the words after it. */
  lemma SplitFirstWord(s: string)
    requires |s| > 0 && !IsSpace(s[0])
    ensures Split(s) == [s[..WordEnd(s)]] + Split(s[WordEnd(s)..])
  {
    assert LStrip(s) == s;
  }

  /** Cutting a string at a space and putting it back together. */
  lemma SpaceAt(s: string, n: nat)
    requires n < |s| && s[n] == ' '
    ensures s[..n] + " " + s[n + 1..] == s
  {
    assert s[..n] + [s[n]] == s[..n + 1];
  }

  /** A normal string is exactly the join of its words. */
  lemma {:induction false} JoinSplitNormal(s: string)
    requires Normal(s)
    ensures Join(Split(s)) == s
    decreases |s|
  {
    if |s| > 0 {
      var n := WordEnd(s);
      SplitFirstWord(s);
      if n == |s| {
        assert s[n..] == [];
        assert s[..n] == s;
      } else {
        NormalRest(s);
        var rest := s[n + 1..];
        assert s[n..] == [s[n]] + rest;
        SplitSpaceCons(s[n], rest);
        JoinSplitNormal(rest);
        SplitFirstWord(rest);
        JoinCons(s[..n], Split(rest));
        SpaceAt(s, n);
      }
    }
  }

  /** Stripping a collapsed string leaves a normal one. */
  lemma StripCollapsedNormal(x: string)
    requires Collapsed(x)
    ensures Normal(Strip(x))
  {
    var r := Strip(x);
    var a := |x| - |LStrip(x)|;
    StripShape(x);
    forall i | 0 <= i < |r| && IsSpace(r[i])
      ensures r[i] == ' '
    {
      assert r[i] == x[a + i];
    }
    forall i | 0 <= i < |r| - 1
      ensures !Doubled(r, i)
    {
      assert !Doubled(x, a + i);
    }
  }

  /** `re.sub(r'\s+', ' ', s).strip() == ' '.join(s.split())`: the two Python idioms agree. */
  lemma StripCollapse(s: string)
    ensures Strip(Collapse(s)) == Join(Split(s))
    ensures Normal(Strip(Collapse(s)))
  {
    var c := Collapse(s);
    StripCollapsedNormal(c);
    JoinSplitNormal(Strip(c));
    SplitStrip(c);
    SplitCollapse(s);
  }

  // ---------------------------------------------------------------------------
  // Character classes carried through

  lemma {:induction false} FilterFilter(p: char -> bool, q: char -> bool, s: string)
    requires forall c :: p(c) ==> q(c)
    ensures Filter(p, Filter(q, s)) == Filter(p, s)
    decreases |s|
  {
    if |s| > 0 {
      FilterFilter(p, q, s[1..]);
      var t := Filter(q, s[1..]);
      if q(s[0]) {
        assert Filter(q, s) == [s[0]] + t;
        assert ([s[0]] + t)[1..] == t;
      } else {
        assert !p(s[0]);
        assert Filter(q, s) == t;
      }
    }
  }

  lemma {:induction false} FilterKeepsAll(p: char -> bool, s: string)
    requires forall k :: 0 <= k < |s| ==> p(s[k])
    ensures Filter(p, s) == s
    decreases |s|
  {
    if |s| > 0 {
      FilterKeepsAll(p, s[1..]);
    }
  }

  /** Collapsing introduces no character but `' '`. */
  lemma {:induction false} CollapseChars(p: char -> bool, s: string)
    requires p(' ')
    requires forall k :: 0 <= k < |s| ==> p(s[k])
    ensures forall k :: 0 <= k < |Collapse(s)| ==> p(Collapse(s)[k])
    decreases |s|
  {
    if |s| > 0 {
      if IsSpace(s[0]) {
        var t := LStrip(s[1..]);
        LStripShape(s[1..]);
        CollapseChars(p, t);
        assert Collapse(s) == [' '] + Collapse(t);
      } else {
        CollapseChars(p, s[1..]);
        assert Collapse(s) == [s[0]] + Collapse(s[1..]);
      }
    }
  }

  /** Stripping introduces no character at all. */
  lemma StripChars(p: char -> bool, s: string)
    requires forall k :: 0 <= k < |s| ==> p(s[k])
    ensures forall k :: 0 <= k < |Strip(s)| ==> p(Strip(s)[k])
  {
    StripShape(s);
  }
}
