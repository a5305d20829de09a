/** The backend store and its data-access operations: exam creation with a fresh access
    code, cascading exam deletion, submission recording and the lookups by teacher, id,
    code and exam. Questions live inside their exam and answers inside their submission,
    mirroring the `delete-orphan` cascades of the table relationships. */
module Store {
  import opened Basics
  import opened Records
  import opened Seqs

  // ---------------------------------------------------------------------------
  // Access codes
  // ---------------------------------------------------------------------------

  /** `string.ascii_uppercase + string.digits`. */
  const CodeAlphabet: string := "ABCDEFGHIJKLMNOPQRSTUVWXYZ0123456789"

  /** One random index into the alphabet. */
  type Pick = i: int | 0 <= i < 36

  /** The six picks of one `random.choices(..., k=6)` call. */
  type Draw = s: seq<Pick> | |s| == 6 witness [0, 0, 0, 0, 0, 0]

  predicate IsCodeChar(c: char) {
    'A' <= c <= 'Z' || '0' <= c <= '9'
  }

  predicate IsExamCode(s: string) {
    |s| == 6 && forall i :: 0 <= i < |s| ==> IsCodeChar(s[i])
  }

  /** The alphabet lists the 26 capital letters in order, then the 10 digits. */
  lemma AlphabetAt(p: Pick)
    ensures CodeAlphabet[p] == if p < 26 then ('A' as int + p) as char else ('0' as int + p - 26) as char
  {
  }

  /** The character one pick selects. */
  function CodeChar(p: Pick): (c: char)
    ensures IsCodeChar(c) && c == CodeAlphabet[p]
  {
    AlphabetAt(p);
    CodeAlphabet[p]
  }

  /** `generate_exam_code()`: six characters picked from the alphabet. */
  function GenerateExamCode(d: Draw): (code: string)
    ensures IsExamCode(code)
  {
    seq(6, i requires 0 <= i < 6 => CodeChar(d[i]))
  }

  function PickOf(c: char): (p: Pick)
    requires IsCodeChar(c)
    ensures CodeAlphabet[p] == c
  {
    if 'A' <= c <= 'Z' then (c as int) - ('A' as int) else 26 + (c as int) - ('0' as int)
  }

  /** Every six-character code over the alphabet can come out of the generator, so the
      code space is exactly the well-formed codes. */
  lemma EveryCodeCanBeDrawn(code: string)
    requires IsExamCode(code)
    ensures exists d: Draw :: GenerateExamCode(d) == code
  {
    var d: Draw := seq(6, i requires 0 <= i < 6 => PickOf(code[i]));
    assert GenerateExamCode(d) == code;
  }

  // ---------------------------------------------------------------------------
  // The store and its invariant
  // ---------------------------------------------------------------------------

  datatype Store = Store(exams: seq<Exam>, submissions: seq<Submission>)

  predicate CodeInUse(store: Store, code: string) {
    exists i :: 0 <= i < |store.exams| && store.exams[i].code == code
  }

  predicate HasExam(store: Store, examId: int) {
    exists i :: 0 <= i < |store.exams| && store.exams[i].id == examId
  }

  predicate ExamIdsDistinct(exams: seq<Exam>) {
    forall i, j :: 0 <= i < j < |exams| ==> exams[i].id != exams[j].id
  }

  /** The `unique=True` constraint on `Exam.code`. */
  predicate CodesDistinct(exams: seq<Exam>) {
    forall i, j :: 0 <= i < j < |exams| ==> exams[i].code != exams[j].code
  }

  /** Each exam's questions carry distinct ids and point back to their exam. */
  predicate QuestionsFiled(exams: seq<Exam>) {
    forall i :: 0 <= i < |exams| ==>
      DistinctQuestionIds(exams[i].questions)
      && forall k :: 0 <= k < |exams[i].questions| ==> exams[i].questions[k].examId == exams[i].id
  }

  predicate SubmissionIdsDistinct(subs: seq<Submission>) {
    forall i, j :: 0 <= i < j < |subs| ==> subs[i].id != subs[j].id
  }

  /** Every submission's exam exists. */
  predicate NoOrphans(store: Store) {
    forall i :: 0 <= i < |store.submissions| ==> HasExam(store, store.submissions[i].examId)
  }

  /** What the tables and their constraints guarantee: unique primary keys, unique exam
      codes, questions filed under their own exam, and no submission without its exam. */
  predicate Valid(store: Store) {
    && ExamIdsDistinct(store.exams)
    && CodesDistinct(store.exams)
    && QuestionsFiled(store.exams)
    && SubmissionIdsDistinct(store.submissions)
    && NoOrphans(store)
  }

  /** The database as `create_all` leaves it: no rows. */
  const Empty: Store := Store([], [])

  /** The invariants hold from the start. */
  lemma EmptyValid()
    ensures Valid(Empty)
  {
  }

  // ---------------------------------------------------------------------------
  // Fresh primary keys: one more than the largest key in use
  // ---------------------------------------------------------------------------

  function MaxExamId(exams: seq<Exam>): (m: int)
    ensures m >= 0 && forall i :: 0 <= i < |exams| ==> exams[i].id <= m
  {
    if exams == [] then 0
    else
      var rest := MaxExamId(exams[1..]);
      assert forall i :: 1 <= i < |exams| ==> exams[i] == exams[1..][i - 1];
      if exams[0].id > rest then exams[0].id else rest
  }

  function MaxIdIn(qs: seq<Question>): (m: int)
    ensures m >= 0 && forall k :: 0 <= k < |qs| ==> qs[k].id <= m
  {
    if qs == [] then 0
    else
      var rest := MaxIdIn(qs[1..]);
      assert forall k :: 1 <= k < |qs| ==> qs[k] == qs[1..][k - 1];
      if qs[0].id > rest then qs[0].id else rest
  }

  function MaxQuestionId(exams: seq<Exam>): (m: int)
    ensures m >= 0
    ensures forall i, k :: 0 <= i < |exams| && 0 <= k < |exams[i].questions| ==>
      exams[i].questions[k].id <= m
  {
    if exams == [] then 0
    else
      var rest := MaxQuestionId(exams[1..]);
      assert forall i :: 1 <= i < |exams| ==> exams[i] == exams[1..][i - 1];
      var here := MaxIdIn(exams[0].questions);
      if here > rest then here else rest
  }

  function MaxSubmissionId(subs: seq<Submission>): (m: int)
    ensures m >= 0 && forall i :: 0 <= i < |subs| ==> subs[i].id <= m
  {
    if subs == [] then 0
    else
      var rest := MaxSubmissionId(subs[1..]);
      assert forall i :: 1 <= i < |subs| ==> subs[i] == subs[1..][i - 1];
      if subs[0].id > rest then subs[0].id else rest
  }

  function NewExamId(store: Store): int {
    MaxExamId(store.exams) + 1
  }

  function NewQuestionId(store: Store): int {
    MaxQuestionId(store.exams) + 1
  }

  function NewSubmissionId(store: Store): int {
    MaxSubmissionId(store.submissions) + 1
  }

  // ---------------------------------------------------------------------------
  // create_exam
  // ---------------------------------------------------------------------------

  datatype ExamInput = ExamInput(title: string, description: Option<string>, timeLimit: int)

  /** Draw `k` is the first of `draws` whose code no exam holds yet. */
  predicate FirstFreeDraw(store: Store, draws: seq<Draw>, k: int)
  {
    0 <= k < |draws| && !CodeInUse(store, GenerateExamCode(draws[k]))
    && forall j :: 0 <= j < k ==> CodeInUse(store, GenerateExamCode(draws[j]))
  }

  /** `create_exam`: draw codes until one is unused, then store the exam with the input's
      fields copied unchanged (the time limit is not checked) and the caller as teacher.
      `draws` is the random stream; the source loops with no bound, so when every given
      draw collides the model reports `None` (the call has not returned yet). */
  method CreateExam(store: Store, input: ExamInput, teacherId: int, now: int, draws: seq<Draw>)
    returns (r: Option<(Store, Exam)>)
    ensures r.None? <==> forall i :: 0 <= i < |draws| ==> CodeInUse(store, GenerateExamCode(draws[i]))
    ensures r.Some? ==> !CodeInUse(store, r.value.1.code) && IsExamCode(r.value.1.code)
    ensures r.Some? ==> exists k :: FirstFreeDraw(store, draws, k) && r.value.1.code == GenerateExamCode(draws[k])
    ensures r.Some? ==> r.value.1 == Exam(NewExamId(store), input.title, input.description,
                                          input.timeLimit, r.value.1.code, teacherId, now, [])
    ensures r.Some? ==> r.value.0 == store.(exams := store.exams + [r.value.1])
    ensures r.Some? && Valid(store) ==> Valid(r.value.0)
  {
    var i := 0;
    while i < |draws|
      invariant 0 <= i <= |draws|
      invariant forall j :: 0 <= j < i ==> CodeInUse(store, GenerateExamCode(draws[j]))
    {
      var code := GenerateExamCode(draws[i]);
      if !CodeInUse(store, code) {
        var exam := Exam(NewExamId(store), input.title, input.description, input.timeLimit,
                         code, teacherId, now, []);
        AppendExamValid(store, exam);
        r := Some((store.(exams := store.exams + [exam]), exam));
        assert FirstFreeDraw(store, draws, i);
        return;
      }
      i := i + 1;
    }
    return None;
  }

  lemma AppendExamValid(store: Store, exam: Exam)
    requires exam.id == NewExamId(store) && exam.questions == []
    requires !CodeInUse(store, exam.code)
    ensures Valid(store) ==> Valid(store.(exams := store.exams + [exam]))
  {
    var after := store.(exams := store.exams + [exam]);
    if Valid(store) {
      var es := after.exams;
      assert forall i :: 0 <= i < |store.exams| ==> es[i] == store.exams[i];
      assert ExamIdsDistinct(es);
      assert CodesDistinct(es);
      assert QuestionsFiled(es);
      forall i | 0 <= i < |store.submissions|
        ensures HasExam(after, store.submissions[i].examId)
      {
        var k :| 0 <= k < |store.exams| && store.exams[k].id == store.submissions[i].examId;
        assert es[k] == store.exams[k];
      }
    }
  }

  // ---------------------------------------------------------------------------
  // Lookups
  // ---------------------------------------------------------------------------

  /** `get_exam_by_id`: the first exam with that id. */
  function GetExamById(store: Store, examId: int): (r: Option<Exam>)
    ensures r.None? <==> !HasExam(store, examId)
    ensures r.Some? ==> exists i :: 0 <= i < |store.exams| && store.exams[i] == r.value
                          && r.value.id == examId
                          && forall j :: 0 <= j < i ==> store.exams[j].id != examId
  {
    match FirstExamWhere(store.exams, (e: Exam) => e.id == examId)
    case Some(i) => Some(store.exams[i])
    case None => None
  }

  /** `get_exam_by_code`: the first exam with that code. */
  function GetExamByCode(store: Store, code: string): (r: Option<Exam>)
    ensures r.None? <==> !CodeInUse(store, code)
    ensures r.Some? ==> exists i :: 0 <= i < |store.exams| && store.exams[i] == r.value
                          && r.value.code == code
                          && forall j :: 0 <= j < i ==> store.exams[j].code != code
  {
    match FirstExamWhere(store.exams, (e: Exam) => e.code == code)
    case Some(i) => Some(store.exams[i])
    case None => None
  }

  /** Index of the first exam satisfying `p` (`query(...).filter(...).first()`). */
  function FirstExamWhere(exams: seq<Exam>, p: Exam -> bool): (r: Option<nat>)
    ensures r.None? <==> forall i :: 0 <= i < |exams| ==> !p(exams[i])
    ensures r.Some? ==> r.value < |exams| && p(exams[r.value])
                        && forall j :: 0 <= j < r.value ==> !p(exams[j])
  {
    if exams == [] then None
    else if p(exams[0]) then Some(0)
    else
      var r := FirstExamWhere(exams[1..], p);
      assert forall i :: 1 <= i < |exams| ==> exams[i] == exams[1..][i - 1];
      if r.Some? then Some(r.value + 1) else None
  }

  /** With unique codes, a code resolves to the one exam carrying it. */
  lemma CodeResolvesUniquely(store: Store, i: nat)
    requires Valid(store)
    requires i < |store.exams|
    ensures GetExamByCode(store, store.exams[i].code) == Some(store.exams[i])
  {
    var r := GetExamByCode(store, store.exams[i].code);
    var k :| 0 <= k < |store.exams| && store.exams[k] == r.value
             && r.value.code == store.exams[i].code;
  }

  /** `get_exams_by_teacher`: exactly the exams of that teacher, in store order. */
  function GetExamsByTeacher(store: Store, teacherId: int): (r: seq<Exam>)
    ensures forall e :: e in r <==> e in store.exams && e.teacherId == teacherId
    ensures |r| == Count(store.exams, (e: Exam) => e.teacherId == teacherId)
  {
    Filter(store.exams, (e: Exam) => e.teacherId == teacherId)
  }

  /** `get_submissions_by_exam`: exactly the submissions of that exam, in store order. */
  function GetSubmissionsByExam(store: Store, examId: int): (r: seq<Submission>)
    ensures forall s :: s in r <==> s in store.submissions && s.examId == examId
    ensures |r| == Count(store.submissions, (s: Submission) => s.examId == examId)
  {
    Filter(store.submissions, (s: Submission) => s.examId == examId)
  }

  // ---------------------------------------------------------------------------
  // delete_exam
  // ---------------------------------------------------------------------------

  /** The submissions that survive deleting exam `examId`, in their original order. */
  function SubmissionsOutside(subs: seq<Submission>, examId: int): (r: seq<Submission>)
    ensures forall s :: s in r <==> s in subs && s.examId != examId
    ensures SubmissionIdsDistinct(subs) ==> SubmissionIdsDistinct(r)
  {
    if subs == [] then []
    else
      var rest := SubmissionsOutside(subs[1..], examId);
      assert forall x :: x in subs <==> x == subs[0] || x in subs[1..];
      if subs[0].examId != examId then
        KeepFirstDistinct(subs, rest);
        [subs[0]] + rest
      else
        DropFirstDistinct(subs);
        rest
  }

  lemma DropFirstDistinct(subs: seq<Submission>)
    requires subs != []
    ensures SubmissionIdsDistinct(subs) ==> SubmissionIdsDistinct(subs[1..])
  {
    if SubmissionIdsDistinct(subs) {
      assert forall i :: 0 <= i < |subs[1..]| ==> subs[1..][i] == subs[i + 1];
    }
  }

  /** Keeping the first submission in front of a distinct selection of the others keeps
      the ids distinct. */
  lemma KeepFirstDistinct(subs: seq<Submission>, rest: seq<Submission>)
    requires subs != []
    requires forall s :: s in rest ==> s in subs[1..]
    requires SubmissionIdsDistinct(subs[1..]) ==> SubmissionIdsDistinct(rest)
    ensures SubmissionIdsDistinct(subs) ==> SubmissionIdsDistinct([subs[0]] + rest)
  {
    if SubmissionIdsDistinct(subs) {
      DropFirstDistinct(subs);
      var r := [subs[0]] + rest;
      forall j | 0 <= j < |rest| ensures rest[j].id != subs[0].id {
        assert rest[j] in subs[1..];
        var b :| 0 <= b < |subs[1..]| && subs[1..][b] == rest[j];
        assert subs[b + 1] == rest[j];
      }
      forall i, j | 0 <= i < j < |r| ensures r[i].id != r[j].id {
        assert r[j] == rest[j - 1];
        if i > 0 {
          assert r[i] == rest[i - 1];
        }
      }
    }
  }

  /** `delete_exam`: when an exam has the id, remove it together with its questions and
      submissions (and so their answers) and report `true`; otherwise report `false` and
      change nothing. */
  function DeleteExam(store: Store, examId: int): (r: (bool, Store))
    ensures r.0 <==> HasExam(store, examId)
    ensures !r.0 ==> r.1 == store
    ensures r.0 ==> exists k :: 0 <= k < |store.exams| && store.exams[k].id == examId
                     && r.1.exams == store.exams[..k] + store.exams[k + 1..]
    ensures r.0 ==> forall s :: s in r.1.submissions <==> s in store.submissions && s.examId != examId
  {
    match FirstExamWhere(store.exams, (e: Exam) => e.id == examId)
    case None => (false, store)
    case Some(k) =>
      (true, Store(store.exams[..k] + store.exams[k + 1..],
                   SubmissionsOutside(store.submissions, examId)))
  }

  /** Removing one exam keeps the exam-list invariants. */
  lemma RemoveExamKeepsDistinct(exams: seq<Exam>, k: nat)
    requires k < |exams|
    requires ExamIdsDistinct(exams) && CodesDistinct(exams) && QuestionsFiled(exams)
    ensures var rest := exams[..k] + exams[k + 1..];
      ExamIdsDistinct(rest) && CodesDistinct(rest) && QuestionsFiled(rest)
      && forall i :: 0 <= i < |rest| ==> rest[i].id != exams[k].id
  {
    var rest := exams[..k] + exams[k + 1..];
    assert forall i :: 0 <= i < |rest| ==> rest[i] == exams[if i < k then i else i + 1];
  }

  /** After a deletion no exam, question or submission of the deleted exam is left, and
      the store is still valid: in particular no submission is orphaned. */
  lemma DeleteExamCascades(store: Store, examId: int)
    requires Valid(store)
    requires HasExam(store, examId)
    ensures var after := DeleteExam(store, examId).1;
      && Valid(after)
      && !HasExam(after, examId)
      && (forall i, k :: 0 <= i < |after.exams| && 0 <= k < |after.exams[i].questions| ==>
            after.exams[i].questions[k].examId != examId)
      && (forall i :: 0 <= i < |after.submissions| ==> after.submissions[i].examId != examId)
  {
    var after := DeleteExam(store, examId).1;
    var k :| 0 <= k < |store.exams| && store.exams[k].id == examId
             && after.exams == store.exams[..k] + store.exams[k + 1..];
    RemoveExamKeepsDistinct(store.exams, k);
    SurvivorsKeepTheirExam(store, k, after);
    forall i, q | 0 <= i < |after.exams| && 0 <= q < |after.exams[i].questions|
      ensures after.exams[i].questions[q].examId != examId
    {
      assert after.exams[i].questions[q].examId == after.exams[i].id;
    }
  }

  /** The submissions left after removing exam `k` all belong to an exam still there. */
  lemma SurvivorsKeepTheirExam(store: Store, k: nat, after: Store)
    requires Valid(store) && k < |store.exams|
    requires after.exams == store.exams[..k] + store.exams[k + 1..]
    requires forall s :: s in after.submissions <==> s in store.submissions && s.examId != store.exams[k].id
    ensures forall i :: 0 <= i < |after.submissions| ==>
      after.submissions[i].examId != store.exams[k].id && HasExam(after, after.submissions[i].examId)
  {
    forall i | 0 <= i < |after.submissions|
      ensures after.submissions[i].examId != store.exams[k].id
      ensures HasExam(after, after.submissions[i].examId)
    {
      var s := after.submissions[i];
      assert s in after.submissions;
      var j :| 0 <= j < |store.submissions| && store.submissions[j] == s;
      var e :| 0 <= e < |store.exams| && store.exams[e].id == s.examId;
      var e' := if e < k then e else e - 1;
      assert after.exams[e'] == store.exams[e];
    }
  }

  // ---------------------------------------------------------------------------
  // create_submission
  // ---------------------------------------------------------------------------

  datatype SubmissionInput = SubmissionInput(studentName: string, answers: seq<Answer>)

  /** `create_submission`: a new submission for `exam`, stamped with the clock, whose
      answers are the input answers one for one, in order, with no filtering of foreign
      or repeated question ids. */
  function CreateSubmission(store: Store, exam: Exam, input: SubmissionInput, now: int)
    : (r: (Store, Submission))
    ensures r.1.examId == exam.id && r.1.studentName == input.studentName && r.1.submittedAt == now
    ensures |r.1.answers| == |input.answers|
    ensures forall i :: 0 <= i < |input.answers| ==>
      r.1.answers[i].questionId == input.answers[i].questionId
      && r.1.answers[i].answerText == input.answers[i].answerText
    ensures forall i :: 0 <= i < |store.submissions| ==> store.submissions[i].id != r.1.id
    ensures r.0 == store.(submissions := store.submissions + [r.1])
    ensures Valid(store) && exam in store.exams ==> Valid(r.0)
  {
    var sub := Submission(NewSubmissionId(store), exam.id, input.studentName, now, input.answers);
    var after := store.(submissions := store.submissions + [sub]);
    assert exam in store.exams ==> HasExam(after, exam.id) by {
      if exam in store.exams {
        var k :| 0 <= k < |store.exams| && store.exams[k] == exam;
        assert after.exams[k].id == exam.id;
      }
    }
    (after, sub)
  }
}
