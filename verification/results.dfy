/** The instructor results page: per-question answered/correct counts, the question-type
    distribution, each submission's MCQ score badge and the per-question verdict of the
    detail view. Everything is a pure reduction of one exam and its submissions. */
module Results {
  import opened Basics
  import opened Records
  import opened Seqs
  import Decimal

  // ---------------------------------------------------------------------------
  // Looking up a submission's answer to a question
  // ---------------------------------------------------------------------------

  /** `answers.find(a => a.question_id === qid)`: the first answer to `qid`, if any. */
  function FirstAnswer(answers: seq<Answer>, qid: int): (r: Option<Answer>)
    ensures r.None? <==> forall i :: 0 <= i < |answers| ==> answers[i].questionId != qid
    ensures r.Some? ==> exists i :: 0 <= i < |answers| && answers[i] == r.value
                          && answers[i].questionId == qid
                          && forall j :: 0 <= j < i ==> answers[j].questionId != qid
  {
    if answers == [] then None
    else if answers[0].questionId == qid then Some(answers[0])
    else
      var r := FirstAnswer(answers[1..], qid);
      assert forall i :: 1 <= i < |answers| ==> answers[i] == answers[1..][i - 1];
      r
  }

  /** `sub.answers.some(a => a.question_id === q.id && a.answer_text)`: some answer to the
      question has non-empty text. Any string but "" is truthy, "Non répondu" included. */
  predicate HasNonEmptyAnswer(sub: Submission, qid: int) {
    exists i :: 0 <= i < |sub.answers| && sub.answers[i].questionId == qid
                && sub.answers[i].answerText != ""
  }

  /** The filter of the `correct` count: an MCQ whose first answer equals the stored
      correct answer exactly. A stored `null` key equals no string. */
  predicate CountsAsCorrect(q: Question, sub: Submission) {
    if q.questionType != MCQ then false
    else
      var answer := FirstAnswer(sub.answers, q.id);
      answer.Some? && Some(answer.value.answerText) == q.correctAnswer
  }

  /** The detail view's verdict `isMCQ && ans?.answer_text === q.correct_answer`. The
      schema always serialises `correct_answer` (as `null` when unset), so a missing
      answer (`undefined`) never matches. */
  predicate IsCorrect(q: Question, sub: Submission)
    ensures IsCorrect(q, sub) ==>
      q.questionType == MCQ && q.correctAnswer.Some? &&
      exists i :: 0 <= i < |sub.answers| && sub.answers[i].questionId == q.id
                  && sub.answers[i].answerText == q.correctAnswer.value
  {
    var ans := FirstAnswer(sub.answers, q.id);
    q.questionType == MCQ &&
    match ans
    case Some(a) => Some(a.answerText) == q.correctAnswer
    case None => false
  }

  // ---------------------------------------------------------------------------
  // Per-question statistics
  // ---------------------------------------------------------------------------

  datatype QuestionStat = QuestionStat(name: string, answered: nat, correct: nat)

  function AnsweredCount(q: Question, subs: seq<Submission>): (n: nat)
    ensures n <= |subs|
  {
    Count(subs, s => HasNonEmptyAnswer(s, q.id))
  }

  function CorrectCount(q: Question, subs: seq<Submission>): (n: nat)
    ensures n <= |subs|
  {
    Count(subs, s => CountsAsCorrect(q, s))
  }

  /** The bar chart data: one entry per exam question, in exam order, named `Q{idx+1}`. */
  function QuestionStats(exam: Exam, subs: seq<Submission>): (r: seq<QuestionStat>)
    ensures |r| == |exam.questions|
    ensures forall i :: 0 <= i < |r| ==> r[i].name == BarName(i)
    ensures forall i :: 0 <= i < |r| ==>
      r[i].answered == AnsweredCount(exam.questions[i], subs) && r[i].answered <= |subs|
    ensures forall i :: 0 <= i < |r| ==>
      r[i].correct == CorrectCount(exam.questions[i], subs) && r[i].correct <= |subs|
  {
    seq(|exam.questions|, i requires 0 <= i < |exam.questions| =>
      var q := exam.questions[i];
      QuestionStat(BarName(i), AnsweredCount(q, subs), CorrectCount(q, subs)))
  }

  /** The label of bar `i` (counting from 0). */
  function BarName(i: nat): string {
    "Q" + Decimal.NatToString(i + 1)
  }

  lemma BarNamesDistinct(i: nat, j: nat)
    requires i != j
    ensures BarName(i) != BarName(j)
  {
    if BarName(i) == BarName(j) {
      PrefixCancel("Q", Decimal.NatToString(i + 1), Decimal.NatToString(j + 1));
      Decimal.NatToStringInjective(i + 1, j + 1);
    }
  }

  /** No two bars share a label. */
  lemma StatNamesDistinct(exam: Exam, subs: seq<Submission>, i: nat, j: nat)
    requires i < j < |exam.questions|
    ensures QuestionStats(exam, subs)[i].name != QuestionStats(exam, subs)[j].name
  {
    BarNamesDistinct(i, j);
  }

  /** Only MCQ questions can have correct answers. */
  lemma {:induction false} NonMcqNeverCorrect(q: Question, subs: seq<Submission>)
    requires q.questionType != MCQ
    ensures CorrectCount(q, subs) == 0
  {
    assert forall i :: 0 <= i < |subs| ==> !CountsAsCorrect(q, subs[i]);
  }

  /** With a non-empty answer key, a correct first answer is a non-empty answer, so the
      green bar never exceeds the black one. */
  lemma CorrectWithinAnswered(q: Question, subs: seq<Submission>)
    requires q.correctAnswer.Some? && q.correctAnswer.value != ""
    ensures CorrectCount(q, subs) <= AnsweredCount(q, subs)
  {
    forall i | 0 <= i < |subs| && CountsAsCorrect(q, subs[i])
      ensures HasNonEmptyAnswer(subs[i], q.id)
    {
      var a := FirstAnswer(subs[i].answers, q.id);
      var k :| 0 <= k < |subs[i].answers| && subs[i].answers[k] == a.value
               && subs[i].answers[k].questionId == q.id;
    }
    CountMonotone(subs, s => CountsAsCorrect(q, s), s => HasNonEmptyAnswer(s, q.id));
  }

  /** The chart's `correct` count is the number of submissions whose detail view marks the
      question as passed. */
  lemma CorrectCountMatchesVerdicts(q: Question, subs: seq<Submission>)
    ensures CorrectCount(q, subs) == Count(subs, s => IsCorrect(q, s))
  {
    CountSame(subs, s => CountsAsCorrect(q, s), s => IsCorrect(q, s));
  }

  // ---------------------------------------------------------------------------
  // Question-type distribution
  // ---------------------------------------------------------------------------

  datatype TypeSlice = TypeSlice(name: string, value: nat)

  /** The pie labels, in display order, and the question type each one counts. */
  const Labels: seq<string> := ["QCM", "LIBRE", "CODE"]
  const LabelTypes: seq<string> := [MCQ, SHORT, CODE]

  /** The test `q.question_type === t`. */
  function OfType(t: string): Question -> bool {
    (q: Question) => q.questionType == t
  }

  function TypeCount(exam: Exam, t: string): (n: nat)
    ensures n <= |exam.questions|
  {
    Count(exam.questions, OfType(t))
  }

  function Slices(exam: Exam): (s: seq<TypeSlice>)
    ensures |s| == 3
    ensures forall k :: 0 <= k < 3 ==> s[k] == TypeSlice(Labels[k], TypeCount(exam, LabelTypes[k]))
  {
    [TypeSlice("QCM", TypeCount(exam, MCQ)),
     TypeSlice("LIBRE", TypeCount(exam, SHORT)),
     TypeSlice("CODE", TypeCount(exam, CODE))]
  }

  /** The pie data: the three labels in fixed order, each with its question count, and
      the zero counts left out. */
  function TypeDistribution(exam: Exam): (r: seq<TypeSlice>)
    ensures |r| <= 3
    ensures forall i :: 0 <= i < |r| ==> r[i].value > 0
    ensures forall k :: 0 <= k < 3 ==>
      (TypeCount(exam, LabelTypes[k]) > 0 <==> TypeSlice(Labels[k], TypeCount(exam, LabelTypes[k])) in r)
    ensures forall i :: 0 <= i < |r| ==>
      exists k :: 0 <= k < 3 && r[i] == TypeSlice(Labels[k], TypeCount(exam, LabelTypes[k]))
  {
    var s := Slices(exam);
    ShownSlices(s);
    Filter(s, Shown)
  }

  /** The `filter(t => t.value > 0)` test. */
  function Shown(t: TypeSlice): bool {
    t.value > 0
  }

  lemma ShownSlices(s: seq<TypeSlice>)
    ensures var r := Filter(s, Shown);
      && (forall k :: 0 <= k < |s| ==> (s[k].value > 0 <==> s[k] in r))
      && (forall i :: 0 <= i < |r| ==> r[i].value > 0 && exists k :: 0 <= k < |s| && r[i] == s[k])
  {
    var r := Filter(s, Shown);
    forall i | 0 <= i < |r| ensures r[i].value > 0 && exists k :: 0 <= k < |s| && r[i] == s[k] {
      assert r[i] in r;
    }
  }

  /** Position of a slice's label in the fixed QCM, LIBRE, CODE order. */
  function SliceRank(t: TypeSlice): int {
    if t.name == "QCM" then 0 else if t.name == "LIBRE" then 1 else 2
  }

  /** The slices keep the fixed QCM, LIBRE, CODE order. */
  lemma TypeDistributionOrder(exam: Exam)
    ensures Ordered(TypeDistribution(exam), SliceRank)
  {
    var s := Slices(exam);
    assert SliceRank(s[0]) == 0 && SliceRank(s[1]) == 1 && SliceRank(s[2]) == 2;
    FilterKeepsOrder(s, Shown, SliceRank);
  }

  function SumValues(r: seq<TypeSlice>): nat {
    if r == [] then 0 else r[0].value + SumValues(r[1..])
  }

  lemma {:induction false} SumFilterPositive(s: seq<TypeSlice>)
    ensures SumValues(Filter(s, Shown)) == SumValues(s)
  {
    if s != [] {
      SumFilterPositive(s[1..]);
    }
  }

  lemma {:induction false} CountDisjoint3(qs: seq<Question>)
    ensures Count(qs, OfType(MCQ)) + Count(qs, OfType(SHORT)) + Count(qs, OfType(CODE))
         == Count(qs, (q: Question) => q.questionType in LabelTypes)
  {
    if qs != [] {
      CountDisjoint3(qs[1..]);
    }
  }

  /** The slices add up to the questions whose type is one of the three. */
  lemma TypeDistributionTotal(exam: Exam)
    ensures SumValues(TypeDistribution(exam)) == Count(exam.questions, (q: Question) => q.questionType in LabelTypes)
  {
    var s := Slices(exam);
    SumFilterPositive(s);
    assert SumValues(s) == s[0].value + SumValues(s[1..]);
    assert SumValues(s[1..]) == s[1].value + SumValues(s[2..]);
    assert SumValues(s[2..]) == s[2].value + SumValues(s[3..]);
    CountDisjoint3(exam.questions);
  }

  // ---------------------------------------------------------------------------
  // The statistics object
  // ---------------------------------------------------------------------------

  datatype ExamStats = ExamStats(questionStats: seq<QuestionStat>, typeDistribution: seq<TypeSlice>)

  /** `stats` is `null` while the exam is unknown or nobody has submitted. */
  function Stats(exam: Option<Exam>, subs: seq<Submission>): (r: Option<ExamStats>)
    ensures r.None? <==> exam.None? || |subs| == 0
    ensures r.Some? ==> |r.value.questionStats| == |exam.value.questions|
                        && |r.value.typeDistribution| <= 3
    ensures r.Some? ==> forall j :: 0 <= j < |exam.value.questions| ==>
      r.value.questionStats[j].name == BarName(j)
      && r.value.questionStats[j].answered == AnsweredCount(exam.value.questions[j], subs)
      && r.value.questionStats[j].correct == CorrectCount(exam.value.questions[j], subs)
    ensures r.Some? ==> forall k :: 0 <= k < 3 ==>
      (TypeCount(exam.value, LabelTypes[k]) > 0
       <==> TypeSlice(Labels[k], TypeCount(exam.value, LabelTypes[k])) in r.value.typeDistribution)
    ensures r.Some? ==> forall i :: 0 <= i < |r.value.typeDistribution| ==>
      exists k :: 0 <= k < 3
                  && r.value.typeDistribution[i] == TypeSlice(Labels[k], TypeCount(exam.value, LabelTypes[k]))
  {
    if exam.None? || |subs| == 0 then None
    else Some(ExamStats(QuestionStats(exam.value, subs), TypeDistribution(exam.value)))
  }

  // ---------------------------------------------------------------------------
  // Per-submission MCQ score
  // ---------------------------------------------------------------------------

  function McqQuestions(exam: Exam): (r: seq<Question>)
    ensures |r| == TypeCount(exam, MCQ)
    ensures forall i :: 0 <= i < |r| ==> r[i] in exam.questions && r[i].questionType == MCQ
    ensures forall k :: 0 <= k < |exam.questions| && exam.questions[k].questionType == MCQ ==> exam.questions[k] in r
  {
    var r := Filter(exam.questions, OfType(MCQ));
    assert forall i :: 0 <= i < |r| ==> r[i] in r && OfType(MCQ)(r[i]);
    r
  }

  /** The MCQ list keeps exam order: it distributes over any split of the questions, so
      with the membership clauses above it is the exam's MCQs in exam order. */
  lemma McqQuestionsKeepOrder(exam: Exam, cut: nat)
    requires cut <= |exam.questions|
    ensures McqQuestions(exam) == McqQuestions(exam.(questions := exam.questions[..cut]))
                                  + McqQuestions(exam.(questions := exam.questions[cut..]))
  {
    assert exam.questions == exam.questions[..cut] + exam.questions[cut..];
    FilterAppend(exam.questions[..cut], exam.questions[cut..], OfType(MCQ));
  }

  /** `mcqQuestions.find(mq => mq.id === qid)`. */
  function FindQuestion(qs: seq<Question>, qid: int): (r: Option<Question>)
    ensures r.Some? ==> r.value in qs && r.value.id == qid
    ensures r.Some? ==> exists i :: 0 <= i < |qs| && qs[i] == r.value && forall j :: 0 <= j < i ==> qs[j].id != qid
    ensures r.None? <==> forall i :: 0 <= i < |qs| ==> qs[i].id != qid
  {
    if qs == [] then None
    else if qs[0].id == qid then Some(qs[0])
    else
      var r := FindQuestion(qs[1..], qid);
      assert forall i :: 1 <= i < |qs| ==> qs[i] == qs[1..][i - 1];
      r
  }

  /** One answer earns a point when it targets an MCQ and equals its key exactly. */
  predicate EarnsPoint(mcqs: seq<Question>, a: Answer) {
    match FindQuestion(mcqs, a.questionId)
    case Some(q) => Some(a.answerText) == q.correctAnswer
    case None => false
  }

  /** `correctOnes`: the submission's answers that earn a point. Answers are counted,
      not questions, so repeated answers to one MCQ each count. */
  function CorrectOnes(exam: Exam, sub: Submission): (n: nat)
    ensures n <= |sub.answers|
  {
    var mcqs := McqQuestions(exam);
    Count(sub.answers, a => EarnsPoint(mcqs, a))
  }

  datatype Badge = Badge(correct: nat, total: nat, pass: bool)

  /** The `SCORE: c/n QCM` badge: shown only when the exam has MCQ questions, green when
      at least half of them were answered correctly. */
  function ScoreBadge(exam: Exam, sub: Submission): (r: Option<Badge>)
    ensures r.None? <==> TypeCount(exam, MCQ) == 0
    ensures r.Some? ==> r.value.total == TypeCount(exam, MCQ) > 0
                        && r.value.correct == CorrectOnes(exam, sub)
    ensures r.Some? ==>
      (r.value.pass <==> (r.value.correct as real) / (r.value.total as real) >= 0.5)
  {
    var total := |McqQuestions(exam)|;
    if total == 0 then None
    else
      var correct := CorrectOnes(exam, sub);
      HalfRatio(correct, total);
      Some(Badge(correct, total, 2 * correct >= total))
  }

  /** The badge compares integers: `c / n >= 0.5` exactly when `2c >= n`. */
  lemma HalfRatio(c: nat, n: nat)
    requires n > 0
    ensures (c as real) / (n as real) >= 0.5 <==> 2 * c >= n
  {
    var x := (c as real) / (n as real);
    var d := x - 0.5;
    assert d * (n as real) == (c as real) - 0.5 * (n as real);
    SignOfProduct(d, n as real);
  }

  lemma SignOfProduct(a: real, b: real)
    requires b > 0.0
    ensures a >= 0.0 <==> a * b >= 0.0
  {
  }

  /** When the submission answers each question at most once, the score never exceeds
      the number of MCQ questions. */
  lemma CorrectOnesWithinMcqCount(exam: Exam, sub: Submission)
    requires forall i, j :: 0 <= i < j < |sub.answers| ==>
      sub.answers[i].questionId != sub.answers[j].questionId
    ensures CorrectOnes(exam, sub) <= TypeCount(exam, MCQ)
  {
    var mcqs := McqQuestions(exam);
    var ids := KeySet(mcqs, (q: Question) => q.id);
    forall i | 0 <= i < |sub.answers| && EarnsPoint(mcqs, sub.answers[i])
      ensures sub.answers[i].questionId in ids
    {
      var q := FindQuestion(mcqs, sub.answers[i].questionId).value;
      var k :| 0 <= k < |mcqs| && mcqs[k] == q;
    }
    CountDistinctKeys(sub.answers, a => EarnsPoint(mcqs, a), (a: Answer) => a.questionId, ids);
  }

  /** Without that precondition the badge can read `SCORE: 2/1`: two identical correct
      answers to the only MCQ both earn a point. */
  lemma RepeatedAnswersInflateScore()
    ensures
      var q := Question(1, 1, MCQ, "?", None, None, Some("A"), None, None);
      var exam := Exam(1, "T", None, 60, "AAAAAA", 1, 0, [q]);
      var sub := Submission(1, 1, "s", 0, [Answer(1, "A"), Answer(1, "A")]);
      ScoreBadge(exam, sub) == Some(Badge(2, 1, true))
  {
    var q := Question(1, 1, MCQ, "?", None, None, Some("A"), None, None);
    var exam := Exam(1, "T", None, 60, "AAAAAA", 1, 0, [q]);
    var sub := Submission(1, 1, "s", 0, [Answer(1, "A"), Answer(1, "A")]);
    assert McqQuestions(exam) == [q];
    assert EarnsPoint([q], sub.answers[0]);
    assert sub.answers[1..] == [Answer(1, "A")];
    assert CorrectOnes(exam, sub) == 2;
  }
}
