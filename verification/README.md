# InstaGrade answer grading, modelled in Dafny

InstaGrade marks handwritten exam answers. Text extracted from a student's script and from
the teacher's answer key is first cut into per-question answers by a delimiter pattern
(`parse_questions_flexible`). Then every question of the key is graded (`grade_all`): the
student's answer is compared with the key's answer by a blend of sentence-embedding
similarity and word overlap (`blended_score`, `keyword_score`). The blended score becomes
marks (`mark_from_score`) and a feedback message (`feedback_from_score`), and the marks add
up to a percentage.

This project models that pipeline as pure functions on `string`, `map<string, string>` and
`real`:

| file | module | what it models |
|---|---|---|
| `wrappers.dfy` | `Wrappers` | `Option`, for a search that may find nothing |
| `py_chars.dfy` | `PyChars` | Python's `\s`, `\d`, letters and `str.lower` on ASCII code points; the C0 and C1 control characters of `[\x00-\x1f\x7f-\x9f]` |
| `py_text.dfy` | `PyText` | `str.strip`, `str.split()`, `' '.join`, and `re.sub(r'\s+', ' ', ...)` with their algebra |
| `collections.dfy` | `Collections` | laws of sequences and finite sets shared by the proofs |
| `real_arith.dfy` | `RealArith` | monotonicity and division facts on reals used by the scoring proofs |
| `delimiter.dfy` | `Delimiter` | the question-delimiter regular expression and `re.finditer` over it |
| `parse_questions.dfy` | `ParseQuestions` | `parse_questions_flexible` on a text, the `clean_text` it calls, and `clean_dict` |
| `semantic_checker.dfy` | `SemanticChecker` | the scorer's `clean_text`, `keyword_score`, and `blended_score` |
| `feedback_marker.dfy` | `FeedbackMarker` | `feedback_from_score`, Python's `round(x, 2)`, and `mark_from_score` |
| `main_grader.dfy` | `MainGrader` | `grade_all`: the loop over the teacher's questions, the records, and the percentage |

Modelling choices:

- **The delimiter pattern** `(?:^|\n|\s)([Qq]?\s*\d+\s*[\).:])` is matched by hand.
  `GroupShape` and `DelimiterShape` give a declarative reading of the pattern.
  `GroupAt` and `MatchAt` are proved to find a match exactly when that reading holds.
  The group can match in only one way, so regex backtracking never changes the result.
- **`re.finditer`** is specified by `IsScan`: each match is the leftmost one at or after
  the point where the previous match ended. `FindAll` computes such a scan, and
  `ScanUnique` proves there is only one.
- **Python dictionaries.**
  - Insertion and overwrite are modelled by the `Assemble` fold.
  - The order in which `grade_all` iterates over the teacher's dictionary is an explicit
    parameter `keys`, a duplicate-free listing of the keys (`IsKeyOrder`).
  - That order is the order of the floating-point sum of the marks. It is also the
    insertion order of the returned `results` dictionary, which the model's `map` does not
    keep.
- **Numbers.**
  - Scores and marks are exact `real`s.
  - `round(x, 2)` is `Round2`: the nearest multiple of 0.01, with ties going to an even
    number of hundredths.
  - Division by zero raises `ZeroDivisionError` in Python. Here it is the `None`
    result of `GradeAll`.
- **The sentence embedding and its cosine similarity** are a parameter
  `similarity: (string, string) -> real`. It is applied to the two cleaned answers, and
  nothing is assumed about its range except in the lemmas that say so.

## Model

| member | source | states |
|---|---|---|
| `Delimiter.GroupAt` | parse_questions_improved.py:56 | the group `[Qq]?\s*\d+\s*[\).:]` matches at a position exactly when its declarative shape holds, and then in exactly one way |
| `Delimiter.MatchAt` | parse_questions_improved.py:56 | a delimiter match starts at `s` only at the start of the text or on a whitespace character, and exactly when the pattern's shape holds there; both alternatives of the prefix give the same group |
| `Delimiter.GroupUnique` | parse_questions_improved.py:56 | every way of matching the group is the greedy left-to-right one, so backtracking cannot produce a different match |
| `Delimiter.NextMatch` | parse_questions_improved.py:59 | the match returned is the leftmost one at or after the scan position, and when none is returned no match starts anywhere from there to the end |
| `Delimiter.FindAll` | parse_questions_improved.py:59 | the matches found satisfy the `re.finditer` scan specification: leftmost first, resuming after each match's end |
| `Delimiter.ScanUnique` | parse_questions_improved.py:59 | two sequences that both satisfy the scan specification are equal, so `finditer`'s output is fully determined |
| `Delimiter.ScanOrdered` | parse_questions_improved.py:59 | the matches come in increasing order, do not overlap, and lie inside the text |
| `Delimiter.ScanEmptyIff` | parse_questions_improved.py:59-61 | the scan is empty exactly when no delimiter matches anywhere in the text |
| `PyChars.Lower` | semantic_checker.py:6 | `lower()` maps `A`-`Z` to `a`-`z` and leaves every other character as it is |
| `PyText.Collapse` | parse_questions_improved.py:108 | replacing whitespace runs leaves no whitespace other than single spaces, never two in a row, and keeps whether the text starts with whitespace |
| `PyText.Strip` | parse_questions_improved.py:111 | the stripped text neither starts nor ends with whitespace |
| `PyText.StripShape` | parse_questions_improved.py:111 | `strip()` returns a contiguous slice of its input, and only whitespace lies outside that slice |
| `PyText.SplitCollapse` | semantic_checker.py:8 | collapsing whitespace runs does not change the words `split()` finds |
| `PyText.SplitStrip` | semantic_checker.py:9 | stripping does not change the words `split()` finds |
| `PyText.SplitSeparator` | semantic_checker.py:12 | a whitespace character splits a text into the words before it followed by the words after it |
| `PyText.JoinSplitNormal` | semantic_checker.py:8-9 | a text of words separated by single spaces is rebuilt exactly by joining its `split()` with spaces |
| `PyText.StripCollapse` | parse_questions_improved.py:108-111 | collapsing then stripping gives the words of the text joined by single spaces, and the result has no leading, trailing, doubled or non-space whitespace |
| `PyText.FilterCollapse` | parse_questions_improved.py:108 | collapsing whitespace keeps every non-whitespace character, in order |
| `PyText.Split` | semantic_checker.py:12 | every item `split()` returns is a word: non-empty and without whitespace |
| `ParseQuestions.CleanText` | parse_questions_improved.py:97-116 | the cleaned text is the input's words joined by single spaces with every control character then deleted, so it has no control character; its visible characters (neither whitespace nor control) are those of the input in order, with case, digits and punctuation kept; when every control character of the input is whitespace, nothing is deleted and the result is normal |
| `ParseQuestions.CleanTextFacts` | parse_questions_improved.py:107-114 | deleting control characters after collapsing and stripping keeps every visible character, and deletes nothing when the only control characters are whitespace |
| `ParseQuestions.CleanTextLeavesSpaceAfterControl` | parse_questions_improved.py:111-114 | because control characters are deleted after `strip()`, a non-whitespace control character, a space and a visible character clean to a leading space and that character: `"\0 a"` cleans to `" a"` |
| `ParseQuestions.CleanTextDoubleSpaceAroundControl` | parse_questions_improved.py:108-114 | a non-whitespace control character between two spaces survives the collapse and is then deleted, leaving two spaces: `"a \0 b"` cleans to `"a  b"` |
| `ParseQuestions.CleanDict` | parse_questions_improved.py:22-24 | the cleaned dictionary has the same questions, each answer passed through the line-97 `clean_text` |
| `ParseQuestions.FirstDigitRun` | parse_questions_improved.py:72 | `re.search(r'\d+', ...)` finds nothing exactly when there is no digit, and otherwise a non-empty run of digits |
| `ParseQuestions.FirstDigitRunAt` | parse_questions_improved.py:72 | a maximal digit run with no digit before it is the run `re.search` returns |
| `ParseQuestions.Marker` | parse_questions_improved.py:69 | `match.group(1).strip()` has no whitespace at either end and keeps exactly the digits of the group, in order |
| `ParseQuestions.MarkerDigits` | parse_questions_improved.py:69-72 | for a delimiter match, `re.search(r'\d+', ...)` on the stripped marker finds exactly the delimiter's digits |
| `ParseQuestions.QuestionKey` | parse_questions_improved.py:72-76 | the key is `"Q"` followed by the marker's first digit run, or by the decimal `i+1` when the marker has no digit; either way it is a question number |
| `ParseQuestions.MarkerKey` | parse_questions_improved.py:69-76 | every key is `"Q"` followed by the delimiter's digits verbatim, leading zeros included; the positional key `Q{i+1}` is never used |
| `ParseQuestions.SpanAnswer` | parse_questions_improved.py:79-89 | the answer to match `i` is `clean_text` of the text from the end of match `i` to the start of the next match, or to the end of the text for the last match; the extra `strip()` changes nothing; the answer has no control character and keeps that text's visible characters |
| `ParseQuestions.Entries` | parse_questions_improved.py:67-89 | match `i` yields the key `"Q"` + its digits and the answer `clean_text(strip(text[end_i:start_{i+1}]))`, running to the end of the text for the last match |
| `ParseQuestions.Segments` | parse_questions_improved.py:59-89 | the segmenter derives exactly one key and answer entry from each match `finditer` returns |
| `ParseQuestions.LastAnswerCons` | parse_questions_improved.py:67-93 | in the sequence of entries, an earlier non-empty answer for a key counts only when no later entry has a non-empty answer for it |
| `ParseQuestions.Assemble` | parse_questions_improved.py:67-93 | the loop stores, for every key, the answer of the last entry with a non-empty answer; other keys keep what the dictionary already held |
| `ParseQuestions.AssembleFromEmpty` | parse_questions_improved.py:65-95 | starting from `{}`, the keys are exactly those with some non-empty answer, each bound to its last one, and there are at most as many keys as entries |
| `ParseQuestions.ParseQuestionsFlexible` | parse_questions_improved.py:56-95 | with no delimiter the result is exactly `{"Q1": clean_text(text)}`, even if that is empty; otherwise the keys are those with a non-empty answer, each value is the last non-empty answer for its key, and there are at most as many keys as matches |
| `ParseQuestions.LastAnswerSource` | parse_questions_improved.py:92-93 | every stored answer was computed for some match carrying that key |
| `ParseQuestions.DelimiterKey` | parse_questions_improved.py:56 | the digits of a delimiter, after `"Q"`, form a question number |
| `ParseQuestions.ParsedKeysAreQuestionNumbers` | parse_questions_improved.py:56-95 | every key the segmenter produces is `Q` followed by one or more digits |
| `ParseQuestions.NoCloserSingleAnswer` | parse_questions_improved.py:56-63 | a text without `)`, `.` or `:` (for instance a bare `Q1 answer`) has no delimiter, so all of it becomes the answer to `Q1` |
| `SemanticChecker.Letterize` | semantic_checker.py:6-7 | after `lower()` and the substitution, a letter is lower-cased, whitespace is kept, and any other character becomes a space |
| `SemanticChecker.LetterizeAll` | semantic_checker.py:6-7 | `lower()` and the substitution replace each character by exactly one character, so the text keeps its length and each position depends only on the character there |
| `SemanticChecker.SplitCleanText` | semantic_checker.py:8-9 | the collapse and strip in `clean_text` change nothing that `split()` sees |
| `SemanticChecker.CleanNoLetters` | semantic_checker.py:5-9 | a text without letters cleans to `""` |
| `SemanticChecker.CleanText` | semantic_checker.py:5-9 | the scorer's cleaned text contains only `a`-`z` and single spaces, with none at either end, and consists of the words of the letterized input joined by spaces |
| `SemanticChecker.CleanTextLetters` | semantic_checker.py:6-8 | the cleaned text keeps the letters of the input, lower-cased and in order, and adds no letter |
| `SemanticChecker.CleanTextSeparator` | semantic_checker.py:7 | every non-letter separates words instead of being deleted: cleaning `a + c + b` gives the words of `a` followed by those of `b`, as in `don't` becoming `don t` |
| `SemanticChecker.CleanTextIdempotent` | semantic_checker.py:5-9 | cleaning a cleaned text changes nothing |
| `SemanticChecker.CleanLetterWord` | semantic_checker.py:6-9 | a run of letters cleans to itself in lower case |
| `SemanticChecker.WordSet` | semantic_checker.py:12-13 | `set(s.split())` holds exactly the words `split()` finds |
| `SemanticChecker.KeywordScore` | semantic_checker.py:11-14 | the score is in `[0, 1]`; it is 0 when the word sets share nothing, which includes an empty student or teacher text; for a teacher text with words it is 1 exactly when the student used all of the teacher's words |
| `SemanticChecker.KeywordBySets` | semantic_checker.py:12-14 | the score depends only on the student's set of words |
| `SemanticChecker.KeywordRepeat` | semantic_checker.py:12-14 | repeating the student's answer does not change the score |
| `SemanticChecker.KeywordReorder` | semantic_checker.py:12-14 | swapping two parts of the student's answer does not change the score |
| `SemanticChecker.KeywordAsymmetric` | semantic_checker.py:14 | the measure is relative to the teacher's words and not symmetric: `a` against `a b` scores 0.5, `a b` against `a` scores 1 |
| `SemanticChecker.BlendCleaned` | semantic_checker.py:23-26 | the semantic part is the similarity of the two cleaned texts, the keyword part is their keyword score in `[0, 1]`, and the score weighs the two |
| `SemanticChecker.BlendedScore` | semantic_checker.py:20-27 | `blended_score` returns `(score, semantic, kw)`, with both measures taken on the cleaned answers and the score `semantic_weight * semantic + keyword_weight * kw` |
| `SemanticChecker.BlendBounds` | semantic_checker.py:26 | with non-negative weights summing to 1 and a similarity in `[-1, 1]`, the score lies in `[-semantic_weight, 1]`, and in `[0, 1]` when the similarity is not negative; nothing clamps it |
| `SemanticChecker.WeightedSum` | semantic_checker.py:26 | a convex combination of a value in `[-1, 1]` and one in `[0, 1]` stays between `-w1` and 1 |
| `SemanticChecker.BlendByCleaned` | semantic_checker.py:21-22 | two answers that clean to the same text get the same score |
| `SemanticChecker.BlendOfCleaned` | semantic_checker.py:21-26 | grading already-cleaned answers gives the same result as grading the raw ones |
| `SemanticChecker.BlendNoLetters` | semantic_checker.py:21-26 | an answer without letters has keyword score 0, so its score is the semantic part alone |
| `SemanticChecker.BlendCleanedNoWords` | semantic_checker.py:11-26 | a cleaned student answer with no words has keyword score 0, so the score is `semantic_weight` times the similarity |
| `SemanticChecker.BlendSameAnswer` | semantic_checker.py:11-14 | an answer with at least one word, compared with itself, has keyword score 1 |
| `FeedbackMarker.FeedbackFromScore` | scripts/feedback_marker.py:1-9 | one of four fixed messages: at least 0.85 is excellent, `[0.7, 0.85)` nearly correct, `[0.5, 0.7)` partially correct, below 0.5 weak; no range check, so scores above 1 are excellent and negative ones weak |
| `FeedbackMarker.FeedbackMonotone` | scripts/feedback_marker.py:2-9 | a higher score never gets a worse message |
| `FeedbackMarker.MessagesDistinct` | scripts/feedback_marker.py:3-9 | the four messages are different texts, so the message identifies the band |
| `FeedbackMarker.RoundHundredths` | scripts/feedback_marker.py:12 | `round(x, 2)` in hundredths is within half a hundredth of `x`, and even on a tie |
| `FeedbackMarker.RoundUnique` | scripts/feedback_marker.py:12 | any integer meeting that rounding contract is the one `RoundHundredths` returns |
| `FeedbackMarker.RoundMonotone` | scripts/feedback_marker.py:12 | rounding never reverses the order of two values |
| `FeedbackMarker.Round2` | scripts/feedback_marker.py:12 | `round(x, 2)` is a whole number of hundredths within 0.005 of `x`, and an even number of hundredths on a tie |
| `FeedbackMarker.Round2Monotone` | scripts/feedback_marker.py:12 | rounding to two decimals never reverses the order of two values |
| `FeedbackMarker.Round2ScaledMonotone` | scripts/feedback_marker.py:12 | two ordered scores, scaled by the same non-negative marks and rounded, keep their order |
| `FeedbackMarker.Round2Range` | main_grader.py:29 | rounding a percentage between 0 and 100 to two decimals keeps it between 0 and 100 |
| `FeedbackMarker.Round2Exact` | scripts/feedback_marker.py:12 | a value with at most two decimals is left unchanged by `round(x, 2)` |
| `FeedbackMarker.MarkFromScore` | scripts/feedback_marker.py:11-12 | the mark is within 0.005 of `score * max_marks` and is a whole number of hundredths |
| `FeedbackMarker.MarkMonotone` | scripts/feedback_marker.py:11-12 | for non-negative `max_marks`, a better score never gets fewer marks |
| `FeedbackMarker.MarkEnds` | scripts/feedback_marker.py:11-12 | score 0 gives 0 marks for every `max_marks`; score 1 gives exactly `max_marks` when `max_marks` has at most two decimals |
| `MainGrader.Lookup` | main_grader.py:16 | an unanswered question counts as the answer `""` |
| `MainGrader.GradeQuestion` | main_grader.py:16-28 | the record keeps both answers unchanged, the score is the blend with weights 0.65 and 0.35, and marks and feedback come from that score |
| `MainGrader.GradeKey` | main_grader.py:16-18 | the record of a question keeps the student's answer, or `""` when the student skipped it, and the key's answer |
| `MainGrader.GradeKeyGradesQuestion` | main_grader.py:15-18 | each question of the key is graded by `GradeQuestion` against `teacher_dict[qno]` and the student's answer or `""` |
| `MainGrader.GradeEachStep` | main_grader.py:15-20 | one iteration adds the record of the next question and adds its marks to the running total in iteration order |
| `MainGrader.SumStep` | main_grader.py:20 | storing the record of the next question adds exactly its marks to the sum over the questions before it |
| `MainGrader.GradeEach` | main_grader.py:11-28 | the loop yields one record per question of the key and none for questions only the student answered, and the total is the marks summed in iteration order |
| `MainGrader.KeyOrderLength` | main_grader.py:14-15 | iterating over the dictionary visits as many questions as `len(teacher_dict)` counts |
| `MainGrader.KeyOrderKeys` | main_grader.py:15-22 | a dictionary holding exactly the questions visited has exactly the teacher's keys |
| `MainGrader.GradeAll` | main_grader.py:9-30 | division by zero exactly when there is no question or `max_marks` is 0; otherwise the results have exactly the teacher's keys, each graded as `GradeKey` does (`GradeQuestion` on the student's answer or `""` against the key's answer), and the percentage is `round(total / (q_count * max_marks) * 100, 2)` |
| `MainGrader.GradeAllWith` | main_grader.py:9-30 | the same as `GradeAll`, for any grading of one question |
| `MainGrader.SumInOrder` | main_grader.py:12-20 | `total_marks`, summed in iteration order, is not negative when no mark is |
| `MainGrader.SumInOrderConstant` | main_grader.py:20 | equal marks on every question sum to their multiple |
| `MainGrader.SumInOrderBounds` | main_grader.py:20 | marks between 0 and `max_marks` sum to between 0 and `q_count * max_marks` |
| `MainGrader.PercentAllFull` | main_grader.py:29 | full marks on every question give exactly 100 percent |
| `MainGrader.PercentOfRounds` | main_grader.py:29 | the percentage is within 0.005 of `total / (q_count * max_marks) * 100` and has at most two decimals |
| `MainGrader.PercentOfWhole` | main_grader.py:29 | a total of exactly `q_count * max_marks` gives exactly 100 |
| `MainGrader.PercentBounds` | main_grader.py:20-29 | with positive `max_marks` and every mark between 0 and `max_marks`, the percentage is between 0 and 100 |
| `MainGrader.PercentRange` | main_grader.py:29 | a total between 0 and the maximum gives a percentage between 0 and 100, after rounding too |
| `MainGrader.GradeMissingAnswer` | main_grader.py:16-18 | an unanswered question is graded as `""`: no keyword matches, so its score is `0.65` times the similarity of `""` with the cleaned key |
| `MainGrader.GradePerfectAnswer` | main_grader.py:16-21 | when `max_marks` has at most two decimals, an answer equal to the key, with at least one letter and self-similarity 1, scores 1, earns exactly `max_marks` and gets the best feedback |

## Left out

- `extract_text.py`: text extraction through an external OCR service, environment variables
  and file writes. It is not part of this model.
- The sentence-embedding model and `cosine_similarity` (semantic_checker.py:16-18, 23-24).
  They are the `similarity` parameter. It is a mathematical function, so the same pair of
  cleaned texts always gets the same similarity.
- Loading in `parse_questions_flexible` (parse_questions_improved.py:45-52). This covers
  opening the JSON file, `dict.get('text', '')`, and the `ValueError` for other argument
  types. `ParseQuestionsFlexible` takes the text itself.
- The unused `output_format` parameter is left out.
- `print` calls, `save_parsed_questions`, `parse_both_files`, `load_answers` and the
  `__main__` blocks are left out. They are file I/O and console output.
- The first `clean_text` in parse_questions_improved.py (lines 5-20). The second definition at
  line 97 rebinds the name before anything calls it, so it is never executed.
- `SimilarityChecker.__init__` (semantic_checker.py:16-18) loads a model and has no logic to
  model.
- `SemanticChecker.BlendedScore`: the default weights 0.7 and 0.3 are the constants
  `DefaultSemanticWeight` and `DefaultKeywordWeight`. The function always takes the weights
  explicitly, because Dafny functions have no default arguments.
- `FeedbackMarker.MarkFromScore`: `max_marks` defaults to 10 in the source. Here it is always
  passed; `DefaultMaxMarks` is 10.
- Floating point:
  - Scores, marks and the percentage are exact reals, not IEEE-754 doubles.
  - The literals 0.65, 0.85 and 0.7 are exact, so a score that is a double just below a
    threshold is not modelled.
  - `round` rounds the exact real value half to even, whereas Python rounds the double's
    binary value.
  - `MainGrader.GradeAll` sums the marks exactly, in iteration order. Floating-point addition
    is not associative, so the double total may differ from the exact one in the last bits.
- Integer `max_marks`: `grade_all`'s default `max_marks=10` is an `int`, but here it is a
  `real`.
- Characters:
  - `\s`, `\d` and the letter class are Python's default `str` classes restricted to ASCII
    code points: whitespace is `\t \n \v \f \r`, `\x1c`-`\x1f` and the space.
  - Unicode whitespace such as `\x85` or `\xa0` is not counted as whitespace.
  - Unicode digits are not counted as `\d`.
  - `str.lower` maps only `A`-`Z`. A non-ASCII letter whose lower case is ASCII (the Kelvin
    sign) becomes a space here instead of `k`.
- Dictionary order of `grade_all`: the iteration order is the `keys` parameter of
  `MainGrader.GradeAll` and fixes the summation order of the total. The returned `results`
  is a `map`, so its insertion order (main_grader.py:22) is not modelled.
- Dictionary order of the segmenter: `ParseQuestions.ParseQuestionsFlexible` returns a `map`.
  Python's dictionary keeps keys in first-insertion order, and a key stored again
  (parse_questions_improved.py:93) keeps its first position. That order is not modelled.
