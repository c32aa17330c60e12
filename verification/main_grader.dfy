/** main_grader.py: `grade_all`, which grades every question of the teacher's key against the
    student's answer to it and reports a percentage over all questions. */
module MainGrader {
  import opened Wrappers
  import opened PyChars
  import opened SemanticChecker
  import opened FeedbackMarker
  import opened RealArith

  /** The dictionary `grade_all` stores per question. */
  datatype ScoreRecord = ScoreRecord(studentAns: string, teacherAns: string, score: real,
                                     marks: real, feedback: Feedback)

  /** The weights `grade_all` passes to `blended_score`, instead of its defaults 0.7 and 0.3. */
  const GraderSemanticWeight: real := 0.65
  const GraderKeywordWeight: real := 0.35

  /** `student_dict.get(qno, "")`: a question the student did not answer counts as empty. */
  function Lookup(student: map<string, string>, q: string): (a: string)
    ensures q in student ==> a == student[q]
    ensures q !in student ==> a == ""
  {
    if q in student then student[q] else ""
  }

  /** One iteration of the loop: blend, mark and feedback for one question. */
  function GradeQuestion(similarity: (string, string) -> real, studentAns: string, teacherAns: string,
                         maxMarks: real): (r: ScoreRecord)
    ensures r.studentAns == studentAns && r.teacherAns == teacherAns
    ensures r.score == BlendedScore(similarity, studentAns, teacherAns, GraderSemanticWeight, GraderKeywordWeight).score
    ensures r.marks == MarkFromScore(r.score, maxMarks)
    ensures r.feedback == FeedbackFromScore(r.score)
  {
    var b := BlendedScore(similarity, studentAns, teacherAns, GraderSemanticWeight, GraderKeywordWeight);
    ScoreRecord(studentAns, teacherAns, b.score, MarkFromScore(b.score, maxMarks), FeedbackFromScore(b.score))
  }

  /** The body of the loop of `grade_all` for the question `q`: the record of the student's
      answer to `q`, or `""`, against the key's answer. */
  function GradeKey(similarity: (string, string) -> real, student: map<string, string>,
                    teacher: map<string, string>, maxMarks: real, q: string): (r: ScoreRecord)
    ensures r.studentAns == Lookup(student, q) && r.teacherAns == Lookup(teacher, q)
  {
    GradeQuestion(similarity, Lookup(student, q), Lookup(teacher, q), maxMarks)
  }

  /** Each question of the key is graded against the student's answer to it, or `""`. */
  lemma GradeKeyGradesQuestion(similarity: (string, string) -> real, student: map<string, string>,
                               teacher: map<string, string>, maxMarks: real, q: string)
    requires q in teacher
    ensures GradeKey(similarity, student, teacher, maxMarks, q)
         == GradeQuestion(similarity, Lookup(student, q), teacher[q], maxMarks)
  {
  }

  // ---------------------------------------------------------------------------
  // The total of the marks

  /** `keys` lists every key of `dict` exactly once: the iteration order of a Python dict. */
  ghost predicate IsKeyOrder<V>(keys: seq<string>, dict: map<string, V>) {
    && (forall i, j :: 0 <= i < j < |keys| ==> keys[i] != keys[j])
    && (forall i :: 0 <= i < |keys| ==> keys[i] in dict)
    && (forall q :: q in dict ==> q in keys)
  }

  /** `total_marks` after adding the marks of the questions `keys`, in that order. */
  function SumInOrder(keys: seq<string>, results: map<string, ScoreRecord>): (total: real)
    requires forall i :: 0 <= i < |keys| ==> keys[i] in results
    ensures (forall i :: 0 <= i < |keys| ==> 0.0 <= results[keys[i]].marks) ==> 0.0 <= total
  {
    if |keys| == 0 then 0.0
    else SumInOrder(keys[..|keys| - 1], results) + results[keys[|keys| - 1]].marks
  }

  lemma SumInOrderSnoc(keys: seq<string>, n: nat, results: map<string, ScoreRecord>)
    requires n < |keys|
    requires forall i :: 0 <= i <= n ==> keys[i] in results
    ensures SumInOrder(keys[..n + 1], results) == SumInOrder(keys[..n], results) + results[keys[n]].marks
  {
    assert keys[..n + 1][..n] == keys[..n];
  }

  /** Records of questions outside `keys` do not enter their sum. */
  lemma {:induction false} SumInOrderFrame(keys: seq<string>, results: map<string, ScoreRecord>,
                                           q: string, r: ScoreRecord)
    requires forall i :: 0 <= i < |keys| ==> keys[i] in results && keys[i] != q
    ensures SumInOrder(keys, results[q := r]) == SumInOrder(keys, results)
    decreases |keys|
  {
    if |keys| > 0 {
      SumInOrderFrame(keys[..|keys| - 1], results, q, r);
    }
  }

  /** Equal marks everywhere sum to their multiple. */
  lemma {:induction false} SumInOrderConstant(keys: seq<string>, results: map<string, ScoreRecord>, v: real)
    requires forall i :: 0 <= i < |keys| ==> keys[i] in results && results[keys[i]].marks == v
    ensures SumInOrder(keys, results) == |keys| as real * v
    decreases |keys|
  {
    if |keys| > 0 {
      var k := |keys| - 1;
      SumInOrderConstant(keys[..k], results, v);
      MulSucc(k as real, v);
    }
  }

  /** Marks between 0 and `maxMarks` sum to between 0 and `|keys| * maxMarks`. */
  lemma {:induction false} SumInOrderBounds(keys: seq<string>, results: map<string, ScoreRecord>, maxMarks: real)
    requires forall i :: 0 <= i < |keys| ==> keys[i] in results && 0.0 <= results[keys[i]].marks <= maxMarks
    ensures 0.0 <= SumInOrder(keys, results) <= |keys| as real * maxMarks
    decreases |keys|
  {
    if |keys| > 0 {
      var k := |keys| - 1;
      SumInOrderBounds(keys[..k], results, maxMarks);
      MulSucc(k as real, maxMarks);
    }
  }

  /** A key order has as many entries as the dictionary has keys. */
  lemma {:induction false} KeyOrderLength<V>(keys: seq<string>, dict: map<string, V>)
    requires IsKeyOrder(keys, dict)
    ensures |keys| == |dict|
    decreases |keys|
  {
    if |keys| > 0 {
      var k := |keys| - 1;
      var last := keys[k];
      var rest := dict - {last};
      assert rest.Keys == dict.Keys - {last};
      assert IsKeyOrder(keys[..k], rest) by {
        forall q | q in rest
          ensures q in keys[..k]
        {
          assert q in keys;
          var i :| 0 <= i < |keys| && keys[i] == q;
          assert i != k;
        }
      }
      KeyOrderLength(keys[..k], rest);
    } else {
      assert dict.Keys == {};
    }
  }

  // ---------------------------------------------------------------------------
  // grade_all

  /** What `grade_all` returns: the per-question records and the percentage. */
  datatype Report = Report(results: map<string, ScoreRecord>, percent: real)

  /** `round((total_marks / (q_count * max_marks)) * 100, 2)`. */
  function PercentOf(total: real, questions: nat, maxMarks: real): real
    requires questions > 0 && maxMarks != 0.0
  {
    MulNonZero(questions as real, maxMarks);
    Round2(total / (questions as real * maxMarks) * 100.0)
  }

  /** The percentage is the share of the marks obtained, times 100, to two decimals. */
  lemma PercentOfRounds(total: real, questions: nat, maxMarks: real)
    requires questions > 0 && maxMarks != 0.0
    ensures Abs(PercentOf(total, questions, maxMarks) - total / (questions as real * maxMarks) * 100.0) <= 0.005
    ensures var p := PercentOf(total, questions, maxMarks); (100.0 * p).Floor as real == 100.0 * p
  {
  }

  /** The loop of `grade_all` over the teacher's questions in dictionary order `keys`, with
      `grade` standing for the grading of one question: a record per question and the running
      total of their marks. */
  method GradeEach(grade: string -> ScoreRecord, teacher: map<string, string>, keys: seq<string>)
    returns (results: map<string, ScoreRecord>, total: real)
    requires IsKeyOrder(keys, teacher)
    ensures results.Keys == teacher.Keys
    ensures forall q {:trigger grade(q)} :: q in results ==> results[q] == grade(q)
    ensures total == SumInOrder(keys, results)
  {
    results := map[];
    total := 0.0;
    for n := 0 to |keys|
      invariant forall q :: q in results <==> q in keys[..n]
      invariant forall q {:trigger grade(q)} :: q in results ==> results[q] == grade(q)
      invariant total == SumInOrder(keys[..n], results)
    {
      GradeEachStep(grade, keys, n, results, total);
      var q := keys[n];
      var record := grade(q);
      results := results[q := record];
      total := total + record.marks;
    }
    assert keys[..|keys|] == keys;
    KeyOrderKeys(keys, teacher, results);
  }

  /** One iteration of `GradeEach` keeps its invariant: the records are those of the first
      `n + 1` questions, and the total is their sum in order. */
  lemma GradeEachStep(grade: string -> ScoreRecord, keys: seq<string>, n: nat,
                      results: map<string, ScoreRecord>, total: real)
    requires n < |keys|
    requires forall i, j :: 0 <= i < j < |keys| ==> keys[i] != keys[j]
    requires forall q :: q in results <==> q in keys[..n]
    requires total == SumInOrder(keys[..n], results)
    ensures forall q :: q in results || q == keys[n] <==> q in keys[..n + 1]
    ensures total + grade(keys[n]).marks == SumInOrder(keys[..n + 1], results[keys[n] := grade(keys[n])])
  {
    assert keys[..n + 1] == keys[..n] + [keys[n]];
    SumStep(keys, n, results, keys[n], grade(keys[n]));
  }

  /** Adding the record of question `n` to the records of the questions before it adds its
      marks to their sum. */
  lemma SumStep(keys: seq<string>, n: nat, results: map<string, ScoreRecord>, q: string, record: ScoreRecord)
    requires n < |keys| && q == keys[n]
    requires forall i, j :: 0 <= i < j < |keys| ==> keys[i] != keys[j]
    requires forall i :: 0 <= i < n ==> keys[i] in results
    ensures SumInOrder(keys[..n], results) + record.marks == SumInOrder(keys[..n + 1], results[q := record])
  {
    forall i | 0 <= i < n
      ensures keys[..n][i] in results && keys[..n][i] != q
    {
      assert keys[..n][i] == keys[i];
    }
    SumInOrderFrame(keys[..n], results, q, record);
    SumInOrderSnoc(keys, n, results[q := record]);
  }

  /** A map whose keys are those listed in a key order of `dict` has the keys of `dict`. */
  lemma KeyOrderKeys<V, W>(keys: seq<string>, dict: map<string, V>, m: map<string, W>)
    requires IsKeyOrder(keys, dict)
    requires forall q :: q in m <==> q in keys
    ensures m.Keys == dict.Keys
  {
  }

  /** `grade_all` with `grade` standing for the grading of one question. `None` stands for the
      `ZeroDivisionError` raised when there is no question or `max_marks` is 0. */
  method GradeAllWith(grade: string -> ScoreRecord, teacher: map<string, string>, keys: seq<string>,
                      maxMarks: real)
    returns (r: Option<Report>)
    requires IsKeyOrder(keys, teacher)
    ensures r.None? <==> |teacher| == 0 || maxMarks == 0.0
    ensures r.Some? ==> r.value.results.Keys == teacher.Keys
    ensures r.Some? ==> forall q {:trigger grade(q)} :: q in r.value.results ==> r.value.results[q] == grade(q)
    ensures r.Some? ==> r.value.percent == PercentOf(SumInOrder(keys, r.value.results), |teacher|, maxMarks)
  {
    var results, total := GradeEach(grade, teacher, keys);
    if |teacher| == 0 || maxMarks == 0.0 {
      return None;
    }
    return Some(Report(results, PercentOf(total, |teacher|, maxMarks)));
  }

  /** `grade_all` on a teacher dictionary with key order `keys`: the records of every question,
      each graded by `GradeQuestion` against the student's answer or `""`, and the percentage
      of the marks obtained. */
  method GradeAll(similarity: (string, string) -> real, student: map<string, string>,
                  teacher: map<string, string>, keys: seq<string>, maxMarks: real)
    returns (r: Option<Report>)
    requires IsKeyOrder(keys, teacher)
    ensures r.None? <==> |teacher| == 0 || maxMarks == 0.0
    ensures r.Some? ==> r.value.results.Keys == teacher.Keys
    ensures r.Some? ==> forall q :: q in r.value.results ==>
      r.value.results[q] == GradeKey(similarity, student, teacher, maxMarks, q)
    ensures r.Some? ==> r.value.percent == PercentOf(SumInOrder(keys, r.value.results), |teacher|, maxMarks)
  {
    var grade := q => GradeKey(similarity, student, teacher, maxMarks, q);
    r := GradeAllWith(grade, teacher, keys, maxMarks);
    if r.Some? {
      forall q | q in r.value.results
        ensures r.value.results[q] == GradeKey(similarity, student, teacher, maxMarks, q)
      {
        assert r.value.results[q] == grade(q);
      }
    }
  }

  // ---------------------------------------------------------------------------
  // Properties of the report

  /** Full marks on every question give 100 percent. */
  lemma PercentAllFull(keys: seq<string>, results: map<string, ScoreRecord>, maxMarks: real)
    requires |keys| > 0 && maxMarks != 0.0
    requires forall i :: 0 <= i < |keys| ==> keys[i] in results && results[keys[i]].marks == maxMarks
    ensures PercentOf(SumInOrder(keys, results), |keys|, maxMarks) == 100.0
  {
    SumInOrderConstant(keys, results, maxMarks);
    PercentOfWhole(SumInOrder(keys, results), |keys|, maxMarks);
  }

  /** The whole of the marks is 100 percent. */
  lemma PercentOfWhole(total: real, questions: nat, maxMarks: real)
    requires questions > 0 && maxMarks != 0.0 && total == questions as real * maxMarks
    ensures PercentOf(total, questions, maxMarks) == 100.0
  {
    MulNonZero(questions as real, maxMarks);
    DivSelf(total);
    var p := total / (questions as real * maxMarks) * 100.0;
    assert p == 100.0;
    Round2Exact(p, 10000);
  }

  /** With marks between 0 and `maxMarks`, the percentage is between 0 and 100. */
  lemma PercentBounds(keys: seq<string>, results: map<string, ScoreRecord>, maxMarks: real)
    requires |keys| > 0 && maxMarks > 0.0
    requires forall i :: 0 <= i < |keys| ==> keys[i] in results && 0.0 <= results[keys[i]].marks <= maxMarks
    ensures 0.0 <= PercentOf(SumInOrder(keys, results), |keys|, maxMarks) <= 100.0
  {
    SumInOrderBounds(keys, results, maxMarks);
    PercentRange(SumInOrder(keys, results), |keys|, maxMarks);
  }

  /** A total between 0 and the maximum possible is between 0 and 100 percent of it. */
  lemma PercentRange(total: real, questions: nat, maxMarks: real)
    requires questions > 0 && maxMarks > 0.0
    requires 0.0 <= total <= questions as real * maxMarks
    ensures 0.0 <= PercentOf(total, questions, maxMarks) <= 100.0
  {
    var whole := questions as real * maxMarks;
    MulLe(maxMarks, 1.0, questions as real);
    DivUnit(total, whole);
    Round2Range(total / whole * 100.0);
  }

  /** An unanswered question is graded as the empty answer: it shares no keyword with the
      key, so its score is the semantic part alone. */
  lemma GradeMissingAnswer(similarity: (string, string) -> real, student: map<string, string>,
                           q: string, teacherAns: string, maxMarks: real)
    requires q !in student
    ensures GradeQuestion(similarity, Lookup(student, q), teacherAns, maxMarks).studentAns == ""
    ensures GradeQuestion(similarity, Lookup(student, q), teacherAns, maxMarks).score
         == GraderSemanticWeight * similarity("", CleanText(teacherAns))
  {
    BlendNoLetters(similarity, "", teacherAns, GraderSemanticWeight, GraderKeywordWeight);
  }

  /** An answer equal to the key, whose embedding similarity with itself is 1, scores 1,
      earns the full marks and the best feedback. */
  lemma GradePerfectAnswer(similarity: (string, string) -> real, answer: string, maxMarks: real, k: int)
    requires exists i :: 0 <= i < |answer| && IsLetter(answer[i])
    requires similarity(CleanText(answer), CleanText(answer)) == 1.0
    requires 100.0 * maxMarks == k as real
    ensures GradeQuestion(similarity, answer, answer, maxMarks).score == 1.0
    ensures GradeQuestion(similarity, answer, answer, maxMarks).marks == maxMarks
    ensures GradeQuestion(similarity, answer, answer, maxMarks).feedback == Excellent
  {
    BlendSameAnswer(similarity, answer, GraderSemanticWeight, GraderKeywordWeight);
    var b := BlendedScore(similarity, answer, answer, GraderSemanticWeight, GraderKeywordWeight);
    assert b.score == 1.0;
    MarkEnds(maxMarks);
  }
}
