/** semantic_checker.py: the answer normaliser `clean_text`, the word-overlap measure
    `keyword_score`, and the arithmetic of `SimilarityChecker.blended_score`. The sentence
    embedding and its cosine similarity are not modelled: they arrive as a function parameter
    applied to the two cleaned answers. */
module SemanticChecker {
  import opened PyChars
  import opened PyText
  import opened Collections
  import opened RealArith

  /** The alphabet left after `re.sub(r'[^a-z\s]', ' ', ...)`. */
  predicate IsLetterOrSpace(c: char) {
    IsLowerLetter(c) || IsSpace(c)
  }

  /** `lower()` then `re.sub(r'[^a-z\s]', ' ', ...)`, one character at a time: letters are
      lower-cased, whitespace is kept as it is, everything else becomes a space. */
  function Letterize(c: char): (r: char)
    ensures IsLetterOrSpace(r)
    ensures IsLetter(c) ==> r == Lower(c)
    ensures IsSpace(c) ==> r == c
    ensures !IsLetter(c) && !IsSpace(c) ==> r == ' '
  {
    var l := Lower(c);
    if IsLowerLetter(l) || IsSpace(l) then l else ' '
  }

  function LetterizeAll(s: string): (r: string)
    ensures |r| == |s|
    ensures forall i :: 0 <= i < |s| ==> r[i] == Letterize(s[i])
  {
    seq(|s|, i requires 0 <= i < |s| => Letterize(s[i]))
  }

  /** `str.lower()` on the letters of a string. */
  function LowerAll(s: string): (r: string)
    ensures |r| == |s|
    ensures forall i :: 0 <= i < |s| ==> r[i] == Lower(s[i])
  {
    seq(|s|, i requires 0 <= i < |s| => Lower(s[i]))
  }

  /** `clean_text`: lower-case, replace every non-letter by a space, collapse whitespace runs
      and strip. The result is the words of the letterized text joined by single spaces. */
  function CleanText(text: string): (r: string)
    ensures forall k :: 0 <= k < |r| ==> IsLowerLetter(r[k]) || r[k] == ' '
    ensures Normal(r)
    ensures r == Join(Split(LetterizeAll(text)))
  {
    var l := LetterizeAll(text);
    var r := Strip(Collapse(l));
    StripCollapse(l);
    CollapseChars(IsLetterOrSpace, l);
    StripChars(IsLetterOrSpace, Collapse(l));
    r
  }

  /** The words of a cleaned answer are those of the letterized text. */
  lemma SplitCleanText(text: string)
    ensures Split(CleanText(text)) == Split(LetterizeAll(text))
  {
    var l := LetterizeAll(text);
    SplitStrip(Collapse(l));
    SplitCollapse(l);
  }

  lemma {:induction false} LetterizeLetters(s: string)
    ensures Filter(IsLowerLetter, LetterizeAll(s)) == LowerAll(Filter(IsLetter, s))
    decreases |s|
  {
    if |s| > 0 {
      var l := LetterizeAll(s);
      var rest := Filter(IsLetter, s[1..]);
      assert l[1..] == LetterizeAll(s[1..]);
      LetterizeLetters(s[1..]);
      assert Filter(IsLowerLetter, l) == (if IsLowerLetter(l[0]) then [l[0]] else []) + Filter(IsLowerLetter, l[1..]);
      if IsLetter(s[0]) {
        assert IsLowerLetter(l[0]) && l[0] == Lower(s[0]);
        assert Filter(IsLetter, s) == [s[0]] + rest;
        LowerAllCons(s[0], rest);
      } else {
        assert !IsLowerLetter(l[0]);
        assert Filter(IsLetter, s) == rest;
      }
    }
  }

  lemma LowerAllCons(c: char, r: string)
    ensures LowerAll([c] + r) == [Lower(c)] + LowerAll(r)
  {
  }

  /** Cleaning keeps every letter, lower-cased and in order, and adds none. */
  lemma CleanTextLetters(text: string)
    ensures Filter(IsLowerLetter, CleanText(text)) == LowerAll(Filter(IsLetter, text))
  {
    var l := LetterizeAll(text);
    FilterStrip(IsLowerLetter, Collapse(l));
    FilterCollapse(IsLowerLetter, l);
    LetterizeLetters(text);
  }

  /** Cleaning a cleaned answer changes nothing. */
  lemma CleanTextIdempotent(text: string)
    ensures CleanText(CleanText(text)) == CleanText(text)
  {
    var r := CleanText(text);
    assert LetterizeAll(r) == r;
    JoinSplitNormal(r);
  }

  /** A run of letters cleans to itself in lower case. */
  lemma CleanLetterWord(w: string)
    requires |w| > 0 && forall k :: 0 <= k < |w| ==> IsLetter(w[k])
    ensures CleanText(w) == LowerAll(w)
  {
    var l := LetterizeAll(w);
    assert l == LowerAll(w);
    assert IsWord(l);
    SplitWord(l);
  }

  /** Every character that is not a letter separates words: `"don't"` gives `don` and `t`. */
  lemma CleanTextSeparator(a: string, c: char, b: string)
    requires !IsLetter(c)
    ensures Split(CleanText(a + [c] + b)) == Split(CleanText(a)) + Split(CleanText(b))
  {
    var l := LetterizeAll(a + [c] + b);
    assert l == LetterizeAll(a) + [Letterize(c)] + LetterizeAll(b);
    SplitSeparator(LetterizeAll(a), Letterize(c), LetterizeAll(b));
    SplitCleanText(a + [c] + b);
    SplitCleanText(a);
    SplitCleanText(b);
  }

  // ---------------------------------------------------------------------------
  // keyword_score

  /** `set(s.split())`. */
  function WordSet(s: string): (ws: set<string>)
    ensures forall w :: w in ws <==> w in Split(s)
  {
    set w | w in Split(s)
  }

  /** A count over a positive count, as `len(...) / max(1, ...)` computes it. */
  lemma RatioFacts(n: nat, d: nat)
    requires 0 < d && n <= d
    ensures 0.0 <= (n as real) / (d as real) <= 1.0
    ensures (n as real) / (d as real) == 1.0 <==> n == d
    ensures n == 0 ==> (n as real) / (d as real) == 0.0
  {
    DivUnit(n as real, d as real);
    if n == d {
      DivSelf(d as real);
    } else if (n as real) / (d as real) == 1.0 {
      DivOne(n as real, d as real);
    }
  }

  /** `keyword_score`: the fraction of the teacher's distinct words that the student used,
      with the denominator floored at 1 so that an empty teacher answer scores 0. */
  function KeywordScore(student: string, teacher: string): (r: real)
    ensures 0.0 <= r <= 1.0
    ensures WordSet(student) * WordSet(teacher) == {} ==> r == 0.0
    ensures WordSet(teacher) != {} ==> (r == 1.0 <==> WordSet(teacher) <= WordSet(student))
  {
    var common := WordSet(student) * WordSet(teacher);
    var t := WordSet(teacher);
    var d := if |t| > 1 then |t| else 1;
    SubsetCardinality(common, t);
    RatioFacts(|common|, d);
    assert common == t <==> t <= WordSet(student);
    (|common| as real) / (d as real)
  }

  /** The keyword score only sees the two word sets. */
  lemma KeywordBySets(s1: string, s2: string, teacher: string)
    requires WordSet(s1) == WordSet(s2)
    ensures KeywordScore(s1, teacher) == KeywordScore(s2, teacher)
  {
  }

  lemma WordSetConcat(a: string, b: string)
    ensures WordSet(a + " " + b) == WordSet(a) + WordSet(b)
  {
    SplitSeparator(a, ' ', b);
    assert a + " " + b == a + [' '] + b;
  }

  /** Repeating the student's answer does not raise the keyword score: only distinct words count. */
  lemma KeywordRepeat(student: string, teacher: string)
    ensures KeywordScore(student + " " + student, teacher) == KeywordScore(student, teacher)
  {
    WordSetConcat(student, student);
    KeywordBySets(student + " " + student, student, teacher);
  }

  /** Word order does not matter to the keyword score. */
  lemma KeywordReorder(a: string, b: string, teacher: string)
    ensures KeywordScore(a + " " + b, teacher) == KeywordScore(b + " " + a, teacher)
  {
    WordSetConcat(a, b);
    WordSetConcat(b, a);
    KeywordBySets(a + " " + b, b + " " + a, teacher);
  }

  /** The measure is not symmetric: it is relative to the teacher's words. */
  lemma KeywordAsymmetric()
    ensures KeywordScore("a", "a b") == 0.5
    ensures KeywordScore("a b", "a") == 1.0
  {
    SplitWord("a");
    SplitWord("b");
    WordSetConcat("a", "b");
    assert "a b" == "a" + " " + "b";
    assert WordSet("a b") == {"a", "b"};
    assert WordSet("a") == {"a"};
    assert WordSet("a") * WordSet("a b") == {"a"};
    assert |WordSet("a b")| == 2;
  }

  // ---------------------------------------------------------------------------
  // blended_score

  /** The triple `blended_score` returns: `(score, semantic, kw)`. */
  datatype Blend = Blend(score: real, semantic: real, keyword: real)

  const DefaultSemanticWeight: real := 0.7
  const DefaultKeywordWeight: real := 0.3

  /** `w1 * x + w2 * y`. */
  function Weighted(w1: real, x: real, w2: real, y: real): real {
    w1 * x + w2 * y
  }

  /** The weighted sum `blended_score` forms from two cleaned answers. */
  function BlendCleaned(similarity: (string, string) -> real, s: string, t: string,
                        semanticWeight: real, keywordWeight: real): (b: Blend)
    ensures b.semantic == similarity(s, t)
    ensures b.keyword == KeywordScore(s, t) && 0.0 <= b.keyword <= 1.0
    ensures b.score == Weighted(semanticWeight, b.semantic, keywordWeight, b.keyword)
  {
    var semantic := similarity(s, t);
    var kw := KeywordScore(s, t);
    Blend(Weighted(semanticWeight, semantic, keywordWeight, kw), semantic, kw)
  }

  /** `blended_score`: both answers are cleaned, `similarity` stands for the cosine similarity
      of their sentence embeddings, and the score is the weighted sum of the two measures. */
  function BlendedScore(similarity: (string, string) -> real, student: string, teacher: string,
                        semanticWeight: real, keywordWeight: real): (b: Blend)
    ensures b.semantic == similarity(CleanText(student), CleanText(teacher))
    ensures b.keyword == KeywordScore(CleanText(student), CleanText(teacher))
    ensures b.score == Weighted(semanticWeight, b.semantic, keywordWeight, b.keyword)
  {
    var s, t := CleanText(student), CleanText(teacher);
    BlendCleaned(similarity, s, t, semanticWeight, keywordWeight)
  }

  /** With non-negative weights summing to one and a cosine similarity in `[-1, 1]`, the score
      lies in `[-semanticWeight, 1]`, and in `[0, 1]` when the similarity is not negative;
      nothing clamps it. */
  lemma BlendBounds(similarity: (string, string) -> real, student: string, teacher: string,
                    semanticWeight: real, keywordWeight: real)
    requires 0.0 <= semanticWeight && 0.0 <= keywordWeight && semanticWeight + keywordWeight == 1.0
    requires -1.0 <= similarity(CleanText(student), CleanText(teacher)) <= 1.0
    ensures -semanticWeight <= BlendedScore(similarity, student, teacher, semanticWeight, keywordWeight).score <= 1.0
    ensures similarity(CleanText(student), CleanText(teacher)) >= 0.0 ==>
      BlendedScore(similarity, student, teacher, semanticWeight, keywordWeight).score >= 0.0
  {
    CleanedBlendBounds(similarity, CleanText(student), CleanText(teacher), semanticWeight, keywordWeight);
  }

  lemma CleanedBlendBounds(similarity: (string, string) -> real, s: string, t: string,
                           semanticWeight: real, keywordWeight: real)
    requires 0.0 <= semanticWeight && 0.0 <= keywordWeight && semanticWeight + keywordWeight == 1.0
    requires -1.0 <= similarity(s, t) <= 1.0
    ensures -semanticWeight <= BlendCleaned(similarity, s, t, semanticWeight, keywordWeight).score <= 1.0
    ensures similarity(s, t) >= 0.0 ==> BlendCleaned(similarity, s, t, semanticWeight, keywordWeight).score >= 0.0
  {
    var b := BlendCleaned(similarity, s, t, semanticWeight, keywordWeight);
    WeightedSum(semanticWeight, keywordWeight, b.semantic, b.keyword);
  }

  /** `w1 * x + w2 * y` for convex weights, `x` in `[-1, 1]` and `y` in `[0, 1]`. */
  lemma WeightedSum(w1: real, w2: real, x: real, y: real)
    requires 0.0 <= w1 && 0.0 <= w2 && w1 + w2 == 1.0
    requires -1.0 <= x <= 1.0 && 0.0 <= y <= 1.0
    ensures -w1 <= Weighted(w1, x, w2, y) <= 1.0
    ensures x >= 0.0 ==> Weighted(w1, x, w2, y) >= 0.0
  {
    ConvexSum(w1, w2, x, y);
  }

  /** Answers that clean to the same text get the same blend. */
  lemma BlendByCleaned(similarity: (string, string) -> real, s1: string, s2: string, t1: string, t2: string,
                       semanticWeight: real, keywordWeight: real)
    requires CleanText(s1) == CleanText(s2) && CleanText(t1) == CleanText(t2)
    ensures BlendedScore(similarity, s1, t1, semanticWeight, keywordWeight)
         == BlendedScore(similarity, s2, t2, semanticWeight, keywordWeight)
  {
    var b := BlendCleaned(similarity, CleanText(s1), CleanText(t1), semanticWeight, keywordWeight);
    assert BlendedScore(similarity, s1, t1, semanticWeight, keywordWeight) == b;
    assert BlendedScore(similarity, s2, t2, semanticWeight, keywordWeight) == b;
  }

  /** Cleaning an answer before grading it changes nothing. */
  lemma BlendOfCleaned(similarity: (string, string) -> real, student: string, teacher: string,
                       semanticWeight: real, keywordWeight: real)
    ensures BlendedScore(similarity, CleanText(student), CleanText(teacher), semanticWeight, keywordWeight)
         == BlendedScore(similarity, student, teacher, semanticWeight, keywordWeight)
  {
    CleanTextIdempotent(student);
    CleanTextIdempotent(teacher);
    BlendByCleaned(similarity, CleanText(student), student, CleanText(teacher), teacher, semanticWeight, keywordWeight);
  }

  /** An answer with no letter shares no keyword, so only the semantic part is left. */
  lemma BlendNoLetters(similarity: (string, string) -> real, student: string, teacher: string,
                       semanticWeight: real, keywordWeight: real)
    requires forall k :: 0 <= k < |student| ==> !IsLetter(student[k])
    ensures BlendedScore(similarity, student, teacher, semanticWeight, keywordWeight).keyword == 0.0
    ensures BlendedScore(similarity, student, teacher, semanticWeight, keywordWeight).score
         == semanticWeight * similarity("", CleanText(teacher))
  {
    var s, t := CleanText(student), CleanText(teacher);
    CleanNoLetters(student);
    assert WordSet(s) == {} by {
      assert WordSet("") == {};
    }
    BlendCleanedNoWords(similarity, s, t, semanticWeight, keywordWeight);
  }

  /** A cleaned answer without words shares no keyword, so only the semantic part is left. */
  lemma BlendCleanedNoWords(similarity: (string, string) -> real, s: string, t: string,
                            semanticWeight: real, keywordWeight: real)
    requires WordSet(s) == {}
    ensures BlendCleaned(similarity, s, t, semanticWeight, keywordWeight).keyword == 0.0
    ensures BlendCleaned(similarity, s, t, semanticWeight, keywordWeight).score == semanticWeight * similarity(s, t)
  {
    assert WordSet(s) * WordSet(t) == {};
    WeightedNoKeyword(semanticWeight, similarity(s, t), keywordWeight);
  }

  /** With no keyword match only the semantic part is left. */
  lemma WeightedNoKeyword(w1: real, x: real, w2: real)
    ensures Weighted(w1, x, w2, 0.0) == w1 * x
  {
  }

  /** An answer without letters cleans to the empty string. */
  lemma CleanNoLetters(student: string)
    requires forall k :: 0 <= k < |student| ==> !IsLetter(student[k])
    ensures CleanText(student) == ""
  {
    var l := LetterizeAll(student);
    assert forall k :: 0 <= k < |l| ==> IsSpace(l[k]);
    SplitAllSpace(l);
  }

  /** An answer identical to the teacher's, with at least one word, has keyword score 1. */
  lemma BlendSameAnswer(similarity: (string, string) -> real, answer: string,
                        semanticWeight: real, keywordWeight: real)
    requires exists k :: 0 <= k < |answer| && IsLetter(answer[k])
    ensures BlendedScore(similarity, answer, answer, semanticWeight, keywordWeight).keyword == 1.0
  {
    var k :| 0 <= k < |answer| && IsLetter(answer[k]);
    var c := CleanText(answer);
    CleanTextLetters(answer);
    var letters := Filter(IsLetter, answer);
    FilterHasLetter(answer, k);
    assert |Filter(IsLowerLetter, c)| > 0;
    assert c != "";
    JoinSplitNormal(c);
    assert Split(c) != [];
    assert Split(c)[0] in WordSet(c);
  }

  lemma {:induction false} FilterHasLetter(s: string, k: nat)
    requires k < |s| && IsLetter(s[k])
    ensures |Filter(IsLetter, s)| > 0
    decreases k
  {
    if k > 0 && !IsLetter(s[0]) {
      FilterHasLetter(s[1..], k - 1);
    }
  }
}
