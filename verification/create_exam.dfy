/** The two-phase exam creation page: first the exam header, then questions added one
    at a time to the exam the first phase created. */
module CreateExam {
  import opened Basics
  import opened Records
  import opened Authoring
  import Text
  import Store

  datatype Phase = Header | Questions

  /** `examData`. The page renders an input for the title only, so the description and
      the time limit keep their initial values. */
  datatype ExamData = ExamData(title: string, description: string, timeLimit: int)

  /** The page state. `file` is the selected image and `preview` its object URL. */
  datatype Page = Page(
    phase: Phase,
    examId: Option<int>,
    examData: ExamData,
    qType: string,
    qText: string,
    file: Option<string>,
    preview: Option<string>,
    options: seq<OptionEntry>)

  const DefaultTimeLimit: int := 60

  function InitialPage(): (p: Page)
    ensures p.phase == Header && p.examId.None?
    ensures p.examData == ExamData("", "", DefaultTimeLimit)
    ensures p.qType == MCQ && p.qText == "" && p.file.None? && p.preview.None?
    ensures StandardKeys(p.options) && forall i :: 0 <= i < |p.options| ==> p.options[i].text == ""
  {
    Page(Header, None, ExamData("", "", 60), MCQ, "", None, None, BlankOptions())
  }

  /** The image is selected exactly when it has a preview, and the options keep their
      A–D keys. */
  predicate Consistent(p: Page) {
    (p.file.Some? <==> p.preview.Some?) && StandardKeys(p.options)
  }

  // ---------------------------------------------------------------------------
  // Phase 1: the header
  // ---------------------------------------------------------------------------

  /** The body `handleStartExam` posts; the time limit goes through `parseInt`, which
      leaves an integer as it is. */
  function StartRequest(p: Page): (r: Store.ExamInput)
    ensures r.title == p.examData.title
    ensures r.description == Some(p.examData.description)
    ensures r.timeLimit == p.examData.timeLimit
  {
    Store.ExamInput(p.examData.title, Some(p.examData.description), p.examData.timeLimit)
  }

  /** How `createExam` ended: it resolved with a body whose `id` is present or absent,
      or it threw. */
  datatype StartOutcome = Resolved(id: Option<int>) | Threw

  /** The title input is `required`: the browser does not submit the form while it is
      empty. */
  predicate CanStart(p: Page) {
    p.examData.title != ""
  }

  /** `handleStartExam`: the request (if the form was submitted) and the page after it.
      The page moves to the question phase only when the response carries a truthy id
      (JavaScript treats id 0 as missing). */
  function StartExam(p: Page, outcome: StartOutcome): (r: (Option<Store.ExamInput>, Page))
    ensures r.0.None? <==> !CanStart(p)
    ensures r.0.Some? ==> r.0.value == StartRequest(p)
    ensures r.1.phase == Questions <==>
              p.phase == Questions
              || (CanStart(p) && outcome.Resolved? && outcome.id.Some? && outcome.id.value != 0)
    ensures CanStart(p) && outcome.Resolved? && outcome.id.Some? && outcome.id.value != 0 ==>
              r.1 == p.(phase := Questions, examId := outcome.id)
    ensures !(CanStart(p) && outcome.Resolved? && outcome.id.Some? && outcome.id.value != 0) ==> r.1 == p
  {
    if !CanStart(p) then (None, p)
    else
      var sent := Some(StartRequest(p));
      match outcome
      case Resolved(Some(id)) =>
        if id != 0 then (sent, p.(examId := Some(id), phase := Questions)) else (sent, p)
      case _ => (sent, p)
  }

  /** With the title filled in, the header phase sends the 60-minute default limit. */
  lemma StartSendsDefaultLimit(title: string, outcome: StartOutcome)
    requires title != ""
    ensures var r := StartExam(InitialPage().(examData := InitialPage().examData.(title := title)), outcome);
      r.0.Some? && r.0.value.timeLimit == DefaultTimeLimit && r.0.value.title == title
  {
  }

  // ---------------------------------------------------------------------------
  // Phase 2: questions
  // ---------------------------------------------------------------------------

  /** The payload of `handleAddQuestion`: options only for MCQ, never an answer key,
      language or starter code, and the selected image if any. */
  function QuestionPayload(p: Page): (q: Payload)
    ensures q.questionType == p.qType && q.text == p.qText && q.image == p.file
    ensures q.options.Some? <==> p.qType == MCQ
    ensures q.options.Some? ==> q.options.value == p.options
    ensures q.correctAnswer.None? && q.language.None? && q.starterCode.None?
  {
    Payload(p.qType, p.qText, if p.qType == MCQ then Some(p.options) else None, None, None, None, p.file)
  }

  /** `handleAddQuestion`. A statement that is empty once trimmed is refused before any
      request. `accepted` is whether `createQuestion` resolved; only then are the
      statement, image and options reset. */
  function AddQuestion(p: Page, accepted: bool): (r: (Option<Payload>, Page))
    ensures r.0.None? <==> Text.IsBlank(p.qText)
    ensures r.0.Some? ==> r.0.value == QuestionPayload(p)
    ensures r.0.Some? && accepted ==>
              r.1 == p.(qText := "", file := None, preview := None, options := BlankOptions())
    ensures !(r.0.Some? && accepted) ==> r.1 == p
    ensures Consistent(p) ==> Consistent(r.1)
  {
    Text.StripEmptyIffBlank(p.qText);
    if Text.Strip(p.qText) == "" then (None, p)
    else
      var sent := Some(QuestionPayload(p));
      if accepted then (sent, p.(qText := "", file := None, preview := None, options := BlankOptions()))
      else (sent, p)
  }

  /** `handleFileChange`: choosing a file sets it and its preview URL; a dialog closed
      without a file changes nothing. */
  function ChooseFile(p: Page, chosen: Option<(string, string)>): (r: Page)
    ensures chosen.None? ==> r == p
    ensures chosen.Some? ==> r == p.(file := Some(chosen.value.0), preview := Some(chosen.value.1))
    ensures Consistent(p) ==> Consistent(r)
  {
    match chosen
    case None => p
    case Some((file, url)) => p.(file := Some(file), preview := Some(url))
  }

  /** What the user can do on the page. This over-approximates the page: every event may be
      sent in either phase, and the type is any string, although the page renders only the
      controls of the current phase and the three type choices. */
  datatype Event =
    | EditTitle(s: string)
    | Start(outcome: StartOutcome)
    | PickType(t: string)
    | EditText(s: string)
    | PickFile(chosen: Option<(string, string)>)
    | RemoveImage
    | EditOption(idx: Slot, s: string)
    | Save(accepted: bool)

  function Step(p: Page, e: Event): (r: Page)
    requires Consistent(p)
    ensures Consistent(r)
  {
    match e
    case EditTitle(s) => p.(examData := p.examData.(title := s))
    case Start(outcome) => StartExam(p, outcome).1
    case PickType(t) => p.(qType := t)
    case EditText(s) => p.(qText := s)
    case PickFile(chosen) => ChooseFile(p, chosen)
    case RemoveImage => p.(file := None, preview := None)
    case EditOption(idx, s) => p.(options := SetOptionText(p.options, idx, s))
    case Save(accepted) => AddQuestion(p, accepted).1
  }

  function Run(p: Page, es: seq<Event>): (r: Page)
    requires Consistent(p)
    decreases |es|
  {
    if es == [] then p else Run(Step(p, es[0]), es[1..])
  }

  /** The page never leaves the question phase once it is there, and never reaches it
      without an exam id. */
  lemma {:induction false} PhaseIsMonotone(p: Page, es: seq<Event>)
    requires Consistent(p)
    requires p.phase == Questions ==> p.examId.Some?
    ensures p.phase == Questions ==> Run(p, es).phase == Questions
    ensures Run(p, es).phase == Questions ==> Run(p, es).examId.Some?
    ensures Consistent(Run(p, es))
    decreases |es|
  {
    if es != [] {
      var q := Step(p, es[0]);
      assert q.phase == Questions ==> q.examId.Some?;
      PhaseIsMonotone(q, es[1..]);
    }
  }

  /** From the initial page, the data stays consistent and the question phase always
      has the id of the exam the header phase created. */
  lemma ReachablePagesConsistent(es: seq<Event>)
    ensures Consistent(Run(InitialPage(), es))
    ensures Run(InitialPage(), es).phase == Questions ==> Run(InitialPage(), es).examId.Some?
  {
    PhaseIsMonotone(InitialPage(), es);
  }
}
