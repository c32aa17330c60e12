/** parse_questions_improved.py: the answer segmenter `parse_questions_flexible` (text branch),
    the `clean_text` it actually calls (the definition at line 97, which shadows the one at
    line 5), and `clean_dict`. */
module ParseQuestions {
  import opened Wrappers
  import opened PyChars
  import opened PyText
  import opened Collections
  import opened Delimiter

  /** A character the segmenter's normaliser keeps: anything but a control character. */
  predicate IsKept(c: char) {
    !IsControl(c)
  }

  /** A character that carries content: neither whitespace nor a control character. */
  predicate IsVisible(c: char) {
    !IsSpace(c) && !IsControl(c)
  }

  predicate SpaceOrKept(c: char) {
    IsSpace(c) || IsKept(c)
  }

  /** Every control character in `s` is whitespace (tab, newline, ...), which collapsing
      turns into a space before the control characters are deleted. */
  ghost predicate NoStrayControl(s: string) {
    forall k :: 0 <= k < |s| ==> SpaceOrKept(s[k])
  }

  /** `clean_text` at line 97: `re.sub(r'\s+', ' ', t)`, then `strip()`, then delete every
      character of `[\x00-\x1f\x7f-\x9f]`. */
  function CleanText(text: string): (r: string)
    ensures forall k :: 0 <= k < |r| ==> !IsControl(r[k])
    ensures Filter(IsVisible, r) == Filter(IsVisible, text)
    ensures NoStrayControl(text) ==> r == Join(Split(text)) && Normal(r)
    ensures r == Filter(IsKept, Join(Split(text)))
  {
    var t := Strip(Collapse(text));
    CleanTextFacts(text);
    Filter(IsKept, t)
  }

  lemma CleanTextFacts(text: string)
    ensures Filter(IsVisible, Filter(IsKept, Strip(Collapse(text)))) == Filter(IsVisible, text)
    ensures NoStrayControl(text) ==> Filter(IsKept, Strip(Collapse(text))) == Strip(Collapse(text))
    ensures Strip(Collapse(text)) == Join(Split(text))
    ensures Normal(Strip(Collapse(text)))
  {
    CleanTextVisible(text);
    if NoStrayControl(text) {
      CleanTextKeepsAll(text);
    }
    StripCollapse(text);
  }

  /** Normalising keeps the visible characters, in order. */
  lemma CleanTextVisible(text: string)
    ensures Filter(IsVisible, Filter(IsKept, Strip(Collapse(text)))) == Filter(IsVisible, text)
  {
    var c := Collapse(text);
    FilterFilter(IsVisible, IsKept, Strip(c));
    FilterStrip(IsVisible, c);
    FilterCollapse(IsVisible, text);
  }

  /** Without stray control characters, deleting control characters after collapsing and
      stripping deletes nothing. */
  lemma CleanTextKeepsAll(text: string)
    requires NoStrayControl(text)
    ensures Filter(IsKept, Strip(Collapse(text))) == Strip(Collapse(text))
  {
    var c := Collapse(text);
    CollapseChars(SpaceOrKept, text);
    forall k | 0 <= k < |c|
      ensures IsKept(c[k])
    {
      if IsSpace(c[k]) {
        assert c[k] == ' ';
      }
    }
    StripChars(IsKept, c);
    FilterKeepsAll(IsKept, Strip(c));
  }

  /** The normaliser is not trimming on every input: a control character in front of a space
      survives `strip()` and is deleted only afterwards, leaving the space at the front, so
      `"\0 a"` cleans to `" a"`. */
  lemma CleanTextLeavesSpaceAfterControl(c: char, a: char)
    requires IsControl(c) && !IsSpace(c) && IsVisible(a)
    ensures CleanText([c, ' ', a]) == [' ', a]
  {
    SplitTwo(c, a);
    JoinTwo(c, a);
    FilterTwo(c, a);
  }

  lemma SplitTwo(c: char, a: char)
    requires !IsSpace(c) && !IsSpace(a)
    ensures Split([c, ' ', a]) == [[c], [a]]
  {
    SplitWordCons([a], []);
    assert [a] + [] == [a];
    SplitSpaceCons(' ', [a]);
    SplitWordCons([c], [' ', a]);
    assert [c] + [' ', a] == [c, ' ', a];
  }

  lemma JoinTwo(c: char, a: char)
    ensures Join([[c], [a]]) == [c, ' ', a]
  {
    JoinCons([c], [[a]]);
    assert [[c]] + [[a]] == [[c], [a]];
    assert [c] + " " + [a] == [c, ' ', a];
  }

  lemma FilterTwo(c: char, a: char)
    requires !IsKept(c) && IsKept(a)
    ensures Filter(IsKept, [c, ' ', a]) == [' ', a]
  {
    var s, s1, s2 := [c, ' ', a], [' ', a], [a];
    assert s[1..] == s1 && s1[1..] == s2 && s2[1..] == [];
    assert Filter(IsKept, s2) == [a];
    assert Filter(IsKept, s1) == [' '] + [a];
  }

  /** A control character between two spaces keeps both: the spaces are not adjacent when
      whitespace runs are collapsed, and deleting the control character afterwards puts them
      side by side, so `"a \0 b"` cleans to `"a  b"` with a double space. */
  lemma CleanTextDoubleSpaceAroundControl(a: char, c: char, b: char)
    requires IsVisible(a) && IsVisible(b) && IsControl(c) && !IsSpace(c)
    ensures CleanText([a, ' ', c, ' ', b]) == [a, ' ', ' ', b]
  {
    SplitThree(a, c, b);
    JoinThree(a, c, b);
    FilterThree(a, c, b);
  }

  lemma SplitThree(a: char, c: char, b: char)
    requires !IsSpace(a) && !IsSpace(c) && !IsSpace(b)
    ensures Split([a, ' ', c, ' ', b]) == [[a], [c], [b]]
  {
    SplitWordCons([b], []);
    assert [b] + [] == [b];
    SplitSpaceCons(' ', [b]);
    SplitWordCons([c], [' ', b]);
    assert [c] + [' ', b] == [c, ' ', b];
    SplitSpaceCons(' ', [c, ' ', b]);
    SplitWordCons([a], [' ', c, ' ', b]);
    assert [a] + [' ', c, ' ', b] == [a, ' ', c, ' ', b];
  }

  lemma JoinThree(a: char, c: char, b: char)
    ensures Join([[a], [c], [b]]) == [a, ' ', c, ' ', b]
  {
    JoinCons([c], [[b]]);
    assert [[c]] + [[b]] == [[c], [b]];
    assert [c] + " " + [b] == [c, ' ', b];
    JoinCons([a], [[c], [b]]);
    assert [[a]] + [[c], [b]] == [[a], [c], [b]];
    assert [a] + " " + [c, ' ', b] == [a, ' ', c, ' ', b];
  }

  lemma FilterThree(a: char, c: char, b: char)
    requires IsKept(a) && IsKept(b) && !IsKept(c)
    ensures Filter(IsKept, [a, ' ', c, ' ', b]) == [a, ' ', ' ', b]
  {
    var s, s1, s2, s3, s4 := [a, ' ', c, ' ', b], [' ', c, ' ', b], [c, ' ', b], [' ', b], [b];
    assert s[1..] == s1 && s1[1..] == s2 && s2[1..] == s3 && s3[1..] == s4 && s4[1..] == [];
    assert Filter(IsKept, s4) == [b];
    assert Filter(IsKept, s3) == [' ', b];
    assert Filter(IsKept, s2) == [' ', b];
    assert Filter(IsKept, s1) == [' '] + [' ', b];
    assert Filter(IsKept, s) == [a] + [' ', ' ', b];
  }

  /** `clean_dict`: the same questions, every answer normalised. */
  function CleanDict(answers: map<string, string>): (r: map<string, string>)
    ensures r.Keys == answers.Keys
    ensures forall q :: q in r ==> r[q] == CleanText(answers[q])
  {
    map q | q in answers :: CleanText(answers[q])
  }

  // ---------------------------------------------------------------------------
  // Question keys

  /** Length of the leading digit run of `s`. */
  function DigitRunLength(s: string): (n: nat)
    ensures n <= |s|
    ensures forall k :: 0 <= k < n ==> IsDigit(s[k])
    ensures n == |s| || !IsDigit(s[n])
  {
    if |s| > 0 && IsDigit(s[0]) then 1 + DigitRunLength(s[1..]) else 0
  }

  /** `re.search(r'\d+', s)`: the leftmost maximal digit run, if any. */
  function FirstDigitRun(s: string): (r: Option<string>)
    ensures r.None? <==> forall k :: 0 <= k < |s| ==> !IsDigit(s[k])
    ensures r.Some? ==> |r.value| > 0 && forall k :: 0 <= k < |r.value| ==> IsDigit(r.value[k])
  {
    if |s| == 0 then None
    else if IsDigit(s[0]) then Some(s[..DigitRunLength(s)])
    else
      FirstDigitRun(s[1..])
  }

  lemma {:induction false} DigitRunLengthAt(s: string, j: nat)
    requires 0 < j <= |s|
    requires forall k :: 0 <= k < j ==> IsDigit(s[k])
    requires j == |s| || !IsDigit(s[j])
    ensures DigitRunLength(s) == j
    decreases j
  {
    if j > 1 {
      DigitRunLengthAt(s[1..], j - 1);
    }
  }

  /** A digit run preceded by no digit is the one `re.search` finds. */
  lemma {:induction false} FirstDigitRunAt(s: string, i: nat, j: nat)
    requires i < j <= |s|
    requires forall k :: 0 <= k < i ==> !IsDigit(s[k])
    requires forall k :: i <= k < j ==> IsDigit(s[k])
    requires j == |s| || !IsDigit(s[j])
    ensures FirstDigitRun(s) == Some(s[i..j])
    decreases i
  {
    if i == 0 {
      DigitRunLengthAt(s, j);
    } else {
      var t := s[1..];
      assert !IsDigit(s[0]);
      forall k | 0 <= k < j - 1
        ensures t[k] == s[k + 1]
      {
      }
      assert j - 1 == |t| || t[j - 1] == s[j];
      FirstDigitRunAt(t, i - 1, j - 1);
      assert t[i - 1..j - 1] == s[i..j];
    }
  }

  function DigitChar(d: nat): (c: char)
    requires d < 10
    ensures IsDigit(c)
  {
    ('0' as int + d) as char
  }

  /** `str(n)` for a natural number. */
  function DecimalString(n: nat): (s: string)
    ensures |s| > 0 && forall k :: 0 <= k < |s| ==> IsDigit(s[k])
  {
    if n < 10 then [DigitChar(n)] else DecimalString(n / 10) + [DigitChar(n % 10)]
  }

  /** The key for match number `index` (0-based): `"Q"` and the first digit run of the
      marker, or `"Q<index+1>"` when the marker holds no digit. */
  function QuestionKey(marker: string, index: nat): (k: string)
    ensures IsQuestionKey(k)
    ensures FirstDigitRun(marker).Some? ==> k[1..] == FirstDigitRun(marker).value
    ensures FirstDigitRun(marker).None? ==> k[1..] == DecimalString(index + 1)
  {
    match FirstDigitRun(marker)
    case Some(digits) => "Q" + digits
    case None => "Q" + DecimalString(index + 1)
  }

  /** `match.group(1).strip()`. */
  function Marker(text: string, m: Match): (r: string)
    requires m.group <= m.end <= |text|
    ensures r == [] || (!IsSpace(r[0]) && !IsSpace(r[|r| - 1]))
    ensures Filter(IsDigit, r) == Filter(IsDigit, text[m.group..m.end])
  {
    var x := text[m.group..m.end];
    FilterStrip(IsDigit, x);
    Strip(x)
  }

  /** When the last character is not whitespace, `strip()` only removes leading whitespace,
      so a digit run with no digit before it is still the first one afterwards. */
  lemma FirstDigitRunStripped(x: string, i: nat, j: nat)
    requires i < j < |x|
    requires forall k :: 0 <= k < i ==> !IsDigit(x[k])
    requires forall k :: i <= k < j ==> IsDigit(x[k])
    requires !IsDigit(x[j]) && !IsSpace(x[|x| - 1])
    ensures FirstDigitRun(Strip(x)) == Some(x[i..j])
  {
    LStripShape(x);
    var t := LStrip(x);
    var a := |x| - |t|;
    assert t == x[a..|x|];
    assert a <= i by {
      assert !IsSpace(x[i]);
    }
    assert Strip(x) == t by {
      assert t[|t| - 1] == x[|x| - 1];
    }
    FirstDigitRunSuffix(x, a, i, j);
  }

  /** Dropping a prefix without digits keeps the first digit run. */
  lemma FirstDigitRunSuffix(x: string, a: nat, i: nat, j: nat)
    requires a <= i < j < |x|
    requires forall k :: 0 <= k < i ==> !IsDigit(x[k])
    requires forall k :: i <= k < j ==> IsDigit(x[k])
    requires !IsDigit(x[j])
    ensures FirstDigitRun(x[a..|x|]) == Some(x[i..j])
  {
    var t := x[a..|x|];
    forall k | 0 <= k <= j - a
      ensures t[k] == x[a + k]
    {
    }
    FirstDigitRunAt(t, i - a, j - a);
    SliceOfSlice(x, a, |x|, i - a, j - a);
  }

  /** The digits of a delimiter are the first digit run of its stripped marker. */
  lemma MarkerDigits(text: string, s: nat, m: Match)
    requires DelimiterShape(text, s, m)
    ensures FirstDigitRun(Marker(text, m)) == Some(text[m.digitsStart..m.digitsEnd])
  {
    GroupDigits(text, m.group, m.GroupPart());
  }

  /** The digits of a group are the first digit run of its stripped text. */
  lemma GroupDigits(text: string, p: nat, gr: Group)
    requires GroupShape(text, p, gr)
    ensures FirstDigitRun(Strip(text[p..gr.end])) == Some(text[gr.digitsStart..gr.digitsEnd])
  {
    var x := text[p..gr.end];
    var i, j := gr.digitsStart - p, gr.digitsEnd - p;
    GroupText(text, p, gr);
    FirstDigitRunStripped(x, i, j);
    SliceOfSlice(text, p, gr.end, i, j);
  }

  /** Every key is `"Q"` followed by the delimiter's digits verbatim: the positional fallback
      never applies. */
  lemma MarkerKey(text: string, s: nat, m: Match, index: nat)
    requires DelimiterShape(text, s, m)
    ensures QuestionKey(Marker(text, m), index) == "Q" + text[m.digitsStart..m.digitsEnd]
  {
    MarkerDigits(text, s, m);
  }

  /** The group's text, read from its own first character. */
  lemma GroupText(text: string, p: nat, gr: Group)
    requires GroupShape(text, p, gr)
    ensures forall k :: 0 <= k < gr.digitsStart - p ==> !IsDigit(text[p..gr.end][k])
    ensures forall k :: gr.digitsStart - p <= k < gr.digitsEnd - p ==> IsDigit(text[p..gr.end][k])
    ensures !IsDigit(text[p..gr.end][gr.digitsEnd - p])
    ensures !IsSpace(text[p..gr.end][gr.end - p - 1])
  {
    var x := text[p..gr.end];
    forall k | 0 <= k < gr.digitsStart - p
      ensures !IsDigit(x[k])
    {
      assert x[k] == text[p + k];
      assert IsSpace(text[p + k]) || (k == 0 && IsQ(text[p]));
    }
    forall k | gr.digitsStart - p <= k < gr.digitsEnd - p
      ensures IsDigit(x[k])
    {
      assert x[k] == text[p + k];
    }
    assert x[gr.digitsEnd - p] == text[gr.digitsEnd];
    assert x[|x| - 1] == text[gr.end - 1];
  }

  // ---------------------------------------------------------------------------
  // Spans and entries

  /** What the loop body computes for one match: its key and its cleaned answer. */
  datatype Entry = Entry(key: string, answer: string)

  /** The matches lie in order inside the text and each has the delimiter's shape. */
  ghost predicate WellPlaced(text: string, ms: seq<Match>) {
    && (forall i :: 0 <= i < |ms| ==> DelimiterShape(text, ms[i].start, ms[i]))
    && (forall i :: 0 <= i < |ms| ==> ms[i].start < ms[i].end <= |text|)
    && (forall i :: 0 <= i < |ms| - 1 ==> ms[i].end <= ms[i + 1].start)
  }

  lemma ScanWellPlaced(text: string, pos: nat, ms: seq<Match>)
    requires IsScan(text, pos, ms)
    ensures WellPlaced(text, ms)
  {
    ScanOrdered(text, pos, ms);
  }

  /** Where the answer of match `i` stops: the start of match `i + 1`, or the end of the text. */
  function SpanEnd(text: string, ms: seq<Match>, i: nat): (e: nat)
    requires WellPlaced(text, ms) && i < |ms|
    ensures ms[i].end <= e <= |text|
  {
    if i + 1 < |ms| then ms[i + 1].start else |text|
  }

  /** `full_text[start_pos:end_pos].strip()` then `clean_text`; the `strip()` changes nothing,
      because `clean_text` strips as well. */
  function SpanAnswer(text: string, ms: seq<Match>, i: nat): (a: string)
    requires WellPlaced(text, ms) && i < |ms|
    ensures forall k :: 0 <= k < |a| ==> !IsControl(a[k])
    ensures Filter(IsVisible, a) == Filter(IsVisible, text[ms[i].end..SpanEnd(text, ms, i)])
    ensures a == CleanText(text[ms[i].end..SpanEnd(text, ms, i)])
  {
    var x := text[ms[i].end..SpanEnd(text, ms, i)];
    FilterStrip(IsVisible, x);
    SplitStrip(x);
    CleanText(Strip(x))
  }

  /** One entry per match: the key `QuestionKey` derives from its marker and the cleaned span. */
  function Entries(text: string, ms: seq<Match>): (es: seq<Entry>)
    requires WellPlaced(text, ms)
    ensures |es| == |ms|
    ensures forall i :: 0 <= i < |ms| ==> es[i].key == "Q" + text[ms[i].digitsStart..ms[i].digitsEnd]
    ensures forall i :: 0 <= i < |ms| ==> es[i].answer == SpanAnswer(text, ms, i)
  {
    MarkerKeys(text, ms);
    seq(|ms|, i requires 0 <= i < |ms| =>
      Entry(QuestionKey(Marker(text, ms[i]), i), SpanAnswer(text, ms, i)))
  }

  lemma MarkerKeys(text: string, ms: seq<Match>)
    requires WellPlaced(text, ms)
    ensures forall i :: 0 <= i < |ms| ==> QuestionKey(Marker(text, ms[i]), i) == "Q" + text[ms[i].digitsStart..ms[i].digitsEnd]
  {
    forall i | 0 <= i < |ms|
      ensures QuestionKey(Marker(text, ms[i]), i) == "Q" + text[ms[i].digitsStart..ms[i].digitsEnd]
    {
      MarkerKey(text, ms[i].start, ms[i], i);
    }
  }

  // ---------------------------------------------------------------------------
  // Last write wins

  /** Reference reading of the dictionary the loop builds: the answer of the LAST entry with
      key `k` whose answer is non-empty, if there is one. */
  function LastAnswer(es: seq<Entry>, k: string): (r: Option<string>)
    ensures r.Some? ==> r.value != ""
    decreases |es|
  {
    if |es| == 0 then None
    else if es[|es| - 1].key == k && es[|es| - 1].answer != "" then Some(es[|es| - 1].answer)
    else LastAnswer(es[..|es| - 1], k)
  }

  /** Peeling the first entry: a later non-empty answer wins over it. */
  lemma {:induction false} LastAnswerCons(e: Entry, es: seq<Entry>, k: string)
    ensures LastAnswer([e] + es, k) ==
      if LastAnswer(es, k).Some? then LastAnswer(es, k)
      else if e.key == k && e.answer != "" then Some(e.answer)
      else None
    decreases |es|
  {
    var all := [e] + es;
    if |es| == 0 {
      assert all[..0] == [];
    } else {
      assert all[..|all| - 1] == [e] + es[..|es| - 1];
      assert all[|all| - 1] == es[|es| - 1];
      LastAnswerCons(e, es[..|es| - 1], k);
    }
  }

  /** The `for` loop of `parse_questions_flexible` over the entries in order, storing each
      non-empty answer under its key. */
  function Assemble(es: seq<Entry>, acc: map<string, string>): (r: map<string, string>)
    ensures forall k :: LastAnswer(es, k).Some? ==> k in r && r[k] == LastAnswer(es, k).value
    ensures forall k :: LastAnswer(es, k).None? ==> (k in r <==> k in acc) && (k in acc ==> r[k] == acc[k])
    decreases |es|
  {
    if |es| == 0 then acc
    else
      var e := es[0];
      var acc' := if e.answer != "" then acc[e.key := e.answer] else acc;
      var r := Assemble(es[1..], acc');
      assert es == [e] + es[1..];
      forall k ensures LastAnswer(es, k) == (
          if LastAnswer(es[1..], k).Some? then LastAnswer(es[1..], k)
          else if e.key == k && e.answer != "" then Some(e.answer)
          else None) {
        LastAnswerCons(e, es[1..], k);
      }
      r
  }

  /** The keys the entries mention. */
  function KeySet(es: seq<Entry>): (ks: set<string>)
    ensures |ks| <= |es|
    ensures forall k :: LastAnswer(es, k).Some? ==> k in ks
    decreases |es|
  {
    if |es| == 0 then {}
    else
      var last := es[|es| - 1];
      KeySet(es[..|es| - 1]) + {last.key}
  }

  // ---------------------------------------------------------------------------
  // The segmenter

  /** The entries of every delimiter match found in `text`. */
  function Segments(text: string): (es: seq<Entry>)
    ensures |es| == |FindAll(text, 0)|
  {
    var ms := FindAll(text, 0);
    ScanWellPlaced(text, 0, ms);
    Entries(text, ms)
  }

  /** Building from an empty dictionary keeps exactly the last non-empty answer per key. */
  lemma AssembleFromEmpty(es: seq<Entry>)
    ensures forall k :: k in Assemble(es, map[]) <==> LastAnswer(es, k).Some?
    ensures forall k :: k in Assemble(es, map[]) ==> Assemble(es, map[])[k] == LastAnswer(es, k).value
    ensures |Assemble(es, map[])| <= |es|
  {
    var r := Assemble(es, map[]);
    var ks := KeySet(es);
    assert r.Keys <= ks;
    assert ks == r.Keys + (ks - r.Keys);
    assert |r| == |r.Keys|;
  }

  /** `parse_questions_flexible` on the text itself. */
  function ParseQuestionsFlexible(text: string): (r: map<string, string>)
    ensures NoMatchIn(text, 0, |text| + 1) ==> r == map["Q1" := CleanText(text)]
    ensures !NoMatchIn(text, 0, |text| + 1) ==>
      && |r| <= |FindAll(text, 0)|
      && (forall k :: k in r <==> LastAnswer(Segments(text), k).Some?)
      && (forall k :: k in r ==> r[k] == LastAnswer(Segments(text), k).value && r[k] != "")
  {
    var ms := FindAll(text, 0);
    ScanEmptyIff(text, 0);
    if |ms| == 0 then
      map["Q1" := CleanText(text)]
    else
      var es := Segments(text);
      AssembleFromEmpty(es);
      Assemble(es, map[])
  }

  /** A question number as the segmenter writes keys: `Q` followed by one or more digits. */
  predicate IsQuestionKey(k: string) {
    && |k| >= 2 && k[0] == 'Q'
    && forall i :: 1 <= i < |k| ==> IsDigit(k[i])
  }

  /** The stored answer for `k` is the answer of some entry with key `k`. */
  lemma {:induction false} LastAnswerSource(es: seq<Entry>, k: string)
    requires LastAnswer(es, k).Some?
    ensures exists i :: 0 <= i < |es| && es[i].key == k && es[i].answer == LastAnswer(es, k).value
    decreases |es|
  {
    var n := |es| - 1;
    if !(es[n].key == k && es[n].answer != "") {
      LastAnswerSource(es[..n], k);
      var i :| 0 <= i < n && es[..n][i].key == k && es[..n][i].answer == LastAnswer(es[..n], k).value;
      assert es[i] == es[..n][i];
    }
  }

  /** The digits a delimiter carries, after `Q`, make a question number. */
  lemma DelimiterKey(text: string, s: nat, m: Match)
    requires DelimiterShape(text, s, m)
    ensures IsQuestionKey("Q" + text[m.digitsStart..m.digitsEnd])
  {
    var k := "Q" + text[m.digitsStart..m.digitsEnd];
    forall j | 1 <= j < |k|
      ensures IsDigit(k[j])
    {
      assert k[j] == text[m.digitsStart + j - 1];
    }
  }

  /** Every entry's key is a question number. */
  lemma SegmentKeys(text: string)
    ensures forall i :: 0 <= i < |Segments(text)| ==> IsQuestionKey(Segments(text)[i].key)
  {
    var ms := FindAll(text, 0);
    ScanWellPlaced(text, 0, ms);
    var es := Entries(text, ms);
    assert es == Segments(text);
    forall i | 0 <= i < |es|
      ensures IsQuestionKey(es[i].key)
    {
      DelimiterKey(text, ms[i].start, ms[i]);
    }
  }

  /** Every key of the segmenter's result is a question number. */
  lemma ParsedKeysAreQuestionNumbers(text: string)
    ensures forall k :: k in ParseQuestionsFlexible(text) ==> IsQuestionKey(k)
  {
    if !NoMatchIn(text, 0, |text| + 1) {
      SegmentKeys(text);
      StoredKeys(Segments(text), ParseQuestionsFlexible(text));
    }
  }

  /** Keys chosen by `LastAnswer` among entries whose keys are all question numbers are
      question numbers. */
  lemma StoredKeys(es: seq<Entry>, r: map<string, string>)
    requires forall i :: 0 <= i < |es| ==> IsQuestionKey(es[i].key)
    requires forall k :: k in r ==> LastAnswer(es, k).Some?
    ensures forall k :: k in r ==> IsQuestionKey(k)
  {
    forall k | k in r
      ensures IsQuestionKey(k)
    {
      LastAnswerSource(es, k);
    }
  }

  /** A text with no `)`, `.` or `:` has no delimiter, so all of it is the answer to `Q1`. */
  lemma NoCloserSingleAnswer(text: string)
    requires forall k :: 0 <= k < |text| ==> !IsCloser(text[k])
    ensures ParseQuestionsFlexible(text) == map["Q1" := CleanText(text)]
  {
    forall s: nat | s <= |text|
      ensures MatchAt(text, s).None?
    {
    }
  }
}
