/** The HTTP routes of the backend over the store: the ownership guard shared by the
    instructor exam routes, question creation with its field mapping, the student-facing
    exam lookup and submission, and the results and export routes. */
module Routes {
  import opened Basics
  import opened Records
  import opened Store
  import Results
  import Export

  /** The only error these routes raise: HTTP 404. */
  datatype HttpError = NotFound

  /** The exam an instructor may act on: the first exam with that id, provided the
      caller owns it. */
  predicate Owns(store: Store, examId: int, teacherId: int) {
    exists i :: 0 <= i < |store.exams| && store.exams[i].id == examId
                && store.exams[i].teacherId == teacherId
                && forall j :: 0 <= j < i ==> store.exams[j].id != examId
  }

  /** `exam = get_exam_by_id(...); if not exam or exam.teacher_id != current_user.id:
      raise 404`. */
  function OwnedExam(store: Store, examId: int, teacherId: int): (r: Result<Exam, HttpError>)
    ensures r.Ok? <==> Owns(store, examId, teacherId)
    ensures r.Ok? ==> r.value in store.exams && r.value.id == examId && r.value.teacherId == teacherId
  {
    match GetExamById(store, examId)
    case None => Err(NotFound)
    case Some(exam) => if exam.teacherId != teacherId then Err(NotFound) else Ok(exam)
  }

  // ---------------------------------------------------------------------------
  // DELETE /exams/{exam_id}
  // ---------------------------------------------------------------------------

  function DeleteExamRoute(store: Store, examId: int, teacherId: int): (r: Result<Store, HttpError>)
    ensures r.Err? <==> !Owns(store, examId, teacherId)
    ensures r.Ok? && Valid(store) ==>
      Valid(r.value) && !HasExam(r.value, examId)
      && forall i :: 0 <= i < |r.value.submissions| ==> r.value.submissions[i].examId != examId
    ensures r.Ok? ==> exists k :: 0 <= k < |store.exams| && store.exams[k].id == examId
                                  && r.value.exams == store.exams[..k] + store.exams[k + 1..]
    ensures r.Ok? ==> forall e :: e in store.exams && e.id != examId ==> e in r.value.exams
    ensures r.Ok? ==> forall s :: s in r.value.submissions <==> s in store.submissions && s.examId != examId
  {
    match OwnedExam(store, examId, teacherId)
    case Err(e) => Err(e)
    case Ok(exam) =>
      var after := DeleteExam(store, examId).1;
      assert Valid(store) ==> Valid(after) && !HasExam(after, examId) && forall i :: 0 <= i < |after.submissions| ==> after.submissions[i].examId != examId by {
        if Valid(store) { DeleteExamCascades(store, examId); }
      }
      Ok(after)
  }

  // ---------------------------------------------------------------------------
  // POST /exams/{exam_id}/questions/
  // ---------------------------------------------------------------------------

  /** The form fields the route reads; anything else the client sends is ignored. */
  datatype QuestionForm = QuestionForm(questionType: string, text: string, optionsJson: Option<string>)

  /** The stored question: only the exam id, type, text, options and image are set; the
      correct answer, language and starter code stay `NULL`. */
  function NewQuestion(store: Store, examId: int, form: QuestionForm, imageUrl: Option<string>)
    : (q: Question)
    ensures q.examId == examId && q.questionType == form.questionType && q.text == form.text
    ensures q.optionsJson == form.optionsJson && q.imageUrl == imageUrl
    ensures q.correctAnswer.None? && q.language.None? && q.starterCode.None?
    ensures forall i, k :: 0 <= i < |store.exams| && 0 <= k < |store.exams[i].questions| ==>
      store.exams[i].questions[k].id != q.id
  {
    Question(NewQuestionId(store), examId, form.questionType, form.text, imageUrl,
             form.optionsJson, None, None, None)
  }

  /** `create_question_for_exam`. `imageUrl` is where the uploaded file was saved, if a
      file came with the form. */
  function CreateQuestionRoute(store: Store, examId: int, teacherId: int, form: QuestionForm,
                               imageUrl: Option<string>)
    : (r: Result<(Store, Question), HttpError>)
    ensures r.Err? <==> !Owns(store, examId, teacherId)
    ensures r.Ok? ==> r.value.1 == NewQuestion(store, examId, form, imageUrl)
    ensures r.Ok? ==> r.value.0.submissions == store.submissions
                      && |r.value.0.exams| == |store.exams|
    ensures r.Ok? ==> exists k :: 0 <= k < |store.exams| && store.exams[k].id == examId
                                  && r.value.0.exams == store.exams[k := store.exams[k].(questions := store.exams[k].questions + [r.value.1])]
    ensures r.Ok? && Valid(store) ==> Valid(r.value.0)
  {
    match OwnedExam(store, examId, teacherId)
    case Err(e) => Err(e)
    case Ok(_) =>
      var k := FirstExamWhere(store.exams, (e: Exam) => e.id == examId).value;
      var q := NewQuestion(store, examId, form, imageUrl);
      var exam := store.exams[k];
      var after := store.(exams := store.exams[k := exam.(questions := exam.questions + [q])]);
      AddQuestionValid(store, k, q);
      Ok((after, q))
  }

  lemma AddQuestionValid(store: Store, k: nat, q: Question)
    requires k < |store.exams|
    requires q.examId == store.exams[k].id
    requires forall j :: 0 <= j < |store.exams[k].questions| ==> store.exams[k].questions[j].id != q.id
    ensures var exam := store.exams[k];
      Valid(store) ==> Valid(store.(exams := store.exams[k := exam.(questions := exam.questions + [q])]))
  {
    var exam := store.exams[k];
    var after := store.(exams := store.exams[k := exam.(questions := exam.questions + [q])]);
    if Valid(store) {
      var es := after.exams;
      assert forall i :: 0 <= i < |es| && i != k ==> es[i] == store.exams[i];
      assert forall i :: 0 <= i < |es| ==> es[i].id == store.exams[i].id && es[i].code == store.exams[i].code;
      assert ExamIdsDistinct(es);
      assert CodesDistinct(es);
      var qs := es[k].questions;
      assert forall j :: 0 <= j < |exam.questions| ==> qs[j] == exam.questions[j];
      assert DistinctQuestionIds(qs);
      assert QuestionsFiled(es);
      forall i | 0 <= i < |store.submissions|
        ensures HasExam(after, store.submissions[i].examId)
      {
        var e :| 0 <= e < |store.exams| && store.exams[e].id == store.submissions[i].examId;
        assert es[e].id == store.exams[e].id;
      }
    }
  }

  // ---------------------------------------------------------------------------
  // Student-facing routes
  // ---------------------------------------------------------------------------

  /** `GET /api/exam/{exam_code}`: the exam with that code, or 404. */
  function StudentExamRoute(store: Store, code: string): (r: Result<Exam, HttpError>)
    ensures r.Err? <==> !CodeInUse(store, code)
    ensures r.Ok? ==> r.value in store.exams && r.value.code == code
  {
    match GetExamByCode(store, code)
    case None => Err(NotFound)
    case Some(exam) => Ok(exam)
  }

  /** `POST /api/submit?exam_code=...`: 404 for an unknown code, otherwise the submission
      is recorded as sent. */
  function SubmitRoute(store: Store, code: string, input: SubmissionInput, now: int)
    : (r: Result<(Store, Submission), HttpError>)
    ensures r.Err? <==> !CodeInUse(store, code)
    ensures r.Ok? ==> r.value.1.answers == input.answers && r.value.1.studentName == input.studentName
    ensures r.Ok? ==> exists i :: 0 <= i < |store.exams| && store.exams[i].code == code
                                  && r.value.1.examId == store.exams[i].id
    ensures r.Ok? ==> r.value.0.exams == store.exams
    ensures r.Ok? ==> r.value.0.submissions == store.submissions + [r.value.1]
                      && r.value.1.submittedAt == now
                      && forall s :: s in store.submissions ==> s.id != r.value.1.id
    ensures r.Ok? && Valid(store) ==> Valid(r.value.0)
  {
    match GetExamByCode(store, code)
    case None => Err(NotFound)
    case Some(exam) =>
      var (after, sub) := CreateSubmission(store, exam, input, now);
      assert sub.answers == input.answers;
      Ok((after, sub))
  }

  // ---------------------------------------------------------------------------
  // Results and export
  // ---------------------------------------------------------------------------

  /** `GET /api/results/{exam_id}`: the exam's submissions, for its owner only. */
  function ResultsRoute(store: Store, examId: int, teacherId: int): (r: Result<seq<Submission>, HttpError>)
    ensures r.Err? <==> !Owns(store, examId, teacherId)
    ensures r.Ok? ==> forall s :: s in r.value <==> s in store.submissions && s.examId == examId
  {
    match OwnedExam(store, examId, teacherId)
    case Err(e) => Err(e)
    case Ok(_) => Ok(GetSubmissionsByExam(store, examId))
  }

  /** `GET /api/results/{exam_id}/export`: the sheet, for the exam's owner only. */
  method ExportRoute(store: Store, examId: int, teacherId: int, formatDate: int -> string)
    returns (r: Result<seq<seq<string>>, HttpError>)
    ensures r.Err? <==> !Owns(store, examId, teacherId)
    ensures r.Ok? ==>
      var exam := OwnedExam(store, examId, teacherId).value;
      var subs := GetSubmissionsByExam(store, examId);
      && |r.value| == |subs| + 1
      && r.value[0] == Export.HeaderRow(|exam.questions|)
      && forall i :: 1 <= i < |r.value| ==>
           Export.IsExportRow(exam.questions, subs[i - 1], formatDate, r.value[i])
  {
    var owned := OwnedExam(store, examId, teacherId);
    if owned.Err? {
      return Err(NotFound);
    }
    var sheet := Export.ExportSheet(owned.value, GetSubmissionsByExam(store, examId), formatDate);
    return Ok(sheet);
  }

  // ---------------------------------------------------------------------------
  // The answer key is never stored
  // ---------------------------------------------------------------------------

  /** The question has no correct answer, language or starter code. */
  predicate KeyFree(q: Question) {
    q.correctAnswer.None? && q.language.None? && q.starterCode.None?
  }

  predicate ExamKeyFree(e: Exam) {
    forall k :: 0 <= k < |e.questions| ==> KeyFree(e.questions[k])
  }

  /** No stored question has a correct answer, language or starter code. */
  predicate NoAnswerKeys(store: Store) {
    forall i :: 0 <= i < |store.exams| ==> ExamKeyFree(store.exams[i])
  }

  /** Adding a question keeps the store free of answer keys: the route stores none. */
  lemma CreateQuestionKeepsNoAnswerKeys(store: Store, examId: int, teacherId: int, form: QuestionForm,
                                        imageUrl: Option<string>)
    requires NoAnswerKeys(store)
    ensures var r := CreateQuestionRoute(store, examId, teacherId, form, imageUrl);
      r.Ok? ==> NoAnswerKeys(r.value.0)
  {
    var r := CreateQuestionRoute(store, examId, teacherId, form, imageUrl);
    if r.Ok? {
      var k :| 0 <= k < |store.exams| && store.exams[k].id == examId
        && r.value.0.exams == store.exams[k := store.exams[k].(questions := store.exams[k].questions + [r.value.1])];
      AppendKeepsKeyFree(store.exams, k, r.value.1);
    }
  }

  lemma AppendKeepsKeyFree(exams: seq<Exam>, k: nat, q: Question)
    requires k < |exams| && KeyFree(q)
    requires forall i :: 0 <= i < |exams| ==> ExamKeyFree(exams[i])
    ensures var after := exams[k := exams[k].(questions := exams[k].questions + [q])];
      forall i :: 0 <= i < |after| ==> ExamKeyFree(after[i])
  {
    var prior := exams[k].questions;
    var qs := prior + [q];
    assert ExamKeyFree(exams[k]);
    forall j | 0 <= j < |qs| ensures KeyFree(qs[j]) {
      if j < |prior| {
        assert qs[j] == prior[j];
      }
    }
  }

  /** Deleting an exam keeps the store free of answer keys. */
  lemma DeleteExamKeepsNoAnswerKeys(store: Store, examId: int, teacherId: int)
    requires NoAnswerKeys(store)
    ensures var r := DeleteExamRoute(store, examId, teacherId);
      r.Ok? ==> NoAnswerKeys(r.value)
  {
    var d := DeleteExamRoute(store, examId, teacherId);
    if d.Ok? {
      assert d.value == DeleteExam(store, examId).1;
      var m :| 0 <= m < |store.exams| && store.exams[m].id == examId
               && d.value.exams == store.exams[..m] + store.exams[m + 1..];
      RemovalKeepsKeyFree(store.exams, m);
    }
  }

  lemma RemovalKeepsKeyFree(exams: seq<Exam>, m: nat)
    requires m < |exams|
    requires forall i :: 0 <= i < |exams| ==> ExamKeyFree(exams[i])
    ensures var rest := exams[..m] + exams[m + 1..];
      forall i :: 0 <= i < |rest| ==> ExamKeyFree(rest[i])
  {
    var rest := exams[..m] + exams[m + 1..];
    forall i | 0 <= i < |rest| ensures ExamKeyFree(rest[i]) {
      assert rest[i] == exams[if i < m then i else i + 1];
    }
  }

  /** Submitting keeps the store free of answer keys: the exams are untouched. */
  lemma SubmitKeepsNoAnswerKeys(store: Store, code: string, input: SubmissionInput, now: int)
    requires NoAnswerKeys(store)
    ensures var r := SubmitRoute(store, code, input, now);
      r.Ok? ==> NoAnswerKeys(r.value.0)
  {
  }

  /** Creating an exam keeps the store free of answer keys: the new exam has no questions. */
  lemma CreateExamKeepsNoAnswerKeys(store: Store, exam: Exam)
    requires NoAnswerKeys(store) && exam.questions == []
    ensures NoAnswerKeys(store.(exams := store.exams + [exam]))
  {
    var after := store.exams + [exam];
    forall i | 0 <= i < |after| ensures ExamKeyFree(after[i]) {
      if i < |store.exams| {
        assert after[i] == store.exams[i];
      }
    }
  }

  /** Since the backend never stores `correct_answer`, the results page can never mark an
      answer correct: every `correct` count and every score is 0, and every badge that is
      shown is the failing one. */
  lemma ScoringIsInert(store: Store, i: nat, subs: seq<Submission>, sub: Submission)
    requires NoAnswerKeys(store)
    requires i < |store.exams|
    ensures var exam := store.exams[i];
      && (forall k :: 0 <= k < |exam.questions| ==> Results.CorrectCount(exam.questions[k], subs) == 0)
      && Results.CorrectOnes(exam, sub) == 0
      && (Results.ScoreBadge(exam, sub).None? || !Results.ScoreBadge(exam, sub).value.pass)
  {
    var exam := store.exams[i];
    forall k | 0 <= k < |exam.questions|
      ensures Results.CorrectCount(exam.questions[k], subs) == 0
    {
      var q := exam.questions[k];
      assert ExamKeyFree(exam) && KeyFree(q);
      assert forall t :: 0 <= t < |subs| ==> !Results.CountsAsCorrect(q, subs[t]);
    }
    var mcqs := Results.McqQuestions(exam);
    forall t | 0 <= t < |sub.answers|
      ensures !Results.EarnsPoint(mcqs, sub.answers[t])
    {
      var found := Results.FindQuestion(mcqs, sub.answers[t].questionId);
      if found.Some? {
        var j :| 0 <= j < |exam.questions| && exam.questions[j] == found.value;
        assert ExamKeyFree(exam) && KeyFree(exam.questions[j]);
      }
    }
  }
}
