/** The add-question form of the exam details page: its state, the edits the page
    offers, and the payload it builds on submit. */
module ExamDetails {
  import opened Basics
  import opened Records
  import opened Authoring

  /** The form's state: `qType`, `qText`, `options`, `correctAnswer`, `language`,
      `starterCode`. */
  datatype DetailsForm = DetailsForm(
    qType: string,
    qText: string,
    options: seq<OptionEntry>,
    correctAnswer: string,
    language: string,
    starterCode: string)

  /** The options keep the A–D keys and the selected answer is one of them. */
  predicate WellFormed(f: DetailsForm) {
    StandardKeys(f.options) && f.correctAnswer in OptionKeys
  }

  /** The form as the page mounts it. */
  function InitialForm(): (f: DetailsForm)
    ensures WellFormed(f)
    ensures f.qType == MCQ && f.qText == "" && f.correctAnswer == OptionKeys[0]
    ensures f.language == "python" && f.starterCode == ""
    ensures forall i :: 0 <= i < |f.options| ==> f.options[i].text == ""
  {
    DetailsForm(MCQ, "", BlankOptions(), "A", "python", "")
  }

  /** `handleOptionChange(idx, val)`: only the text of option `idx` changes. */
  function ChangeOption(f: DetailsForm, idx: nat, val: string): (r: DetailsForm)
    requires idx < |f.options|
    ensures r == f.(options := r.options)
    ensures |r.options| == |f.options| && r.options[idx] == OptionEntry(f.options[idx].key, val)
    ensures forall j :: 0 <= j < |r.options| && j != idx ==> r.options[j] == f.options[j]
    ensures WellFormed(f) ==> WellFormed(r)
  {
    f.(options := SetOptionText(f.options, idx, val))
  }

  /** The answer select offers exactly the keys A–D. */
  function SelectCorrect(f: DetailsForm, k: Slot): (r: DetailsForm)
    ensures r == f.(correctAnswer := r.correctAnswer)
    ensures r.correctAnswer in OptionKeys
    ensures StandardKeys(f.options) ==> r.correctAnswer == r.options[k].key
    ensures WellFormed(f) ==> WellFormed(r)
  {
    f.(correctAnswer := OptionKeys[k])
  }

  /** The payload of `handleAddQuestion`: options and answer only for MCQ, language and
      starter code only for CODE. */
  function BuildPayload(f: DetailsForm): (p: Payload)
    ensures p.questionType == f.qType && p.text == f.qText && p.image.None?
    ensures p.options.Some? <==> f.qType == MCQ
    ensures p.correctAnswer.Some? <==> f.qType == MCQ
    ensures p.language.Some? <==> f.qType == CODE
    ensures p.starterCode.Some? <==> f.qType == CODE
    ensures p.options.Some? ==> p.options.value == f.options
    ensures p.correctAnswer.Some? ==> p.correctAnswer.value == f.correctAnswer
    ensures p.language.Some? ==> p.language.value == f.language
    ensures p.starterCode.Some? ==> p.starterCode.value == f.starterCode
  {
    var mcq := f.qType == MCQ;
    var code := f.qType == CODE;
    Payload(f.qType, f.qText,
            if mcq then Some(f.options) else None,
            if mcq then Some(f.correctAnswer) else None,
            if code then Some(f.language) else None,
            if code then Some(f.starterCode) else None,
            None)
  }

  /** In a well-formed form, an MCQ payload's answer names one of the options it sends. */
  lemma PayloadAnswerIsOptionKey(f: DetailsForm)
    requires WellFormed(f)
    requires f.qType == MCQ
    ensures var p := BuildPayload(f);
      exists i :: 0 <= i < |p.options.value| && p.options.value[i].key == p.correctAnswer.value
  {
    var p := BuildPayload(f);
    var i :| 0 <= i < |OptionKeys| && OptionKeys[i] == f.correctAnswer;
    assert p.options.value[i].key == OptionKeys[i];
  }

  /** The browser submits the form only when every rendered `required` field is filled:
      the statement always, the four option texts when the type is MCQ. */
  predicate CanSubmit(f: DetailsForm) {
    f.qText != "" && (f.qType == MCQ ==> forall i :: 0 <= i < |f.options| ==> f.options[i].text != "")
  }

  /** Submitting the form. `accepted` is whether `createQuestion` resolved; when it
      rejects, the handler stops before its resets. The result is the payload sent (if
      any) and the form afterwards. */
  function AddQuestion(f: DetailsForm, accepted: bool): (r: (Option<Payload>, DetailsForm))
    ensures r.0.None? <==> !CanSubmit(f)
    ensures r.0.Some? ==> r.0.value == BuildPayload(f)
    ensures r.1 == f.(qText := r.1.qText, starterCode := r.1.starterCode)
    ensures r.1 != f ==> r.0.Some? && accepted
    ensures r.0.Some? && accepted ==> r.1.qText == "" && r.1.starterCode == ""
    ensures WellFormed(f) ==> WellFormed(r.1)
  {
    if !CanSubmit(f) then (None, f)
    else
      var sent := Some(BuildPayload(f));
      if accepted then (sent, f.(qText := "", starterCode := "")) else (sent, f)
  }

  /** What the user can do on the form. This over-approximates the form: every event may be
      sent whatever the type, and the type and the language are any string, although the form
      renders only the controls of the chosen type and its fixed choices. */
  datatype Event =
    | PickType(t: string)
    | EditText(s: string)
    | EditOption(idx: Slot, s: string)
    | PickCorrect(k: Slot)
    | PickLanguage(l: string)
    | EditStarter(s: string)
    | Submit(accepted: bool)

  function Step(f: DetailsForm, e: Event): (r: DetailsForm)
    requires WellFormed(f)
  {
    match e
    case PickType(t) => f.(qType := t)
    case EditText(s) => f.(qText := s)
    case EditOption(idx, s) => ChangeOption(f, idx, s)
    case PickCorrect(k) => SelectCorrect(f, k)
    case PickLanguage(l) => f.(language := l)
    case EditStarter(s) => f.(starterCode := s)
    case Submit(accepted) => AddQuestion(f, accepted).1
  }

  /** The form after a sequence of events. */
  function Run(f: DetailsForm, es: seq<Event>): (r: DetailsForm)
    requires WellFormed(f)
    decreases |es|
  {
    if es == [] then f
    else
      var g := Step(f, es[0]);
      StepKeepsWellFormed(f, es[0]);
      Run(g, es[1..])
  }

  lemma StepKeepsWellFormed(f: DetailsForm, e: Event)
    requires WellFormed(f)
    ensures WellFormed(Step(f, e))
  {
  }

  /** Whatever the user does, the option keys stay A–D and the answer stays one of them,
      so every MCQ payload the page can send names one of its own options. */
  lemma {:induction false} ReachableFormsWellFormed(es: seq<Event>)
    ensures WellFormed(Run(InitialForm(), es))
  {
    RunKeepsWellFormed(InitialForm(), es);
  }

  lemma {:induction false} RunKeepsWellFormed(f: DetailsForm, es: seq<Event>)
    requires WellFormed(f)
    ensures WellFormed(Run(f, es))
    decreases |es|
  {
    if es != [] {
      StepKeepsWellFormed(f, es[0]);
      RunKeepsWellFormed(Step(f, es[0]), es[1..]);
    }
  }
}
