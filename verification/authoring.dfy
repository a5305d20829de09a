/** What the two question-authoring pages of the instructor client share: the fixed
    A–D option list, the payload a page hands to the API client, and the multipart form
    the API client actually sends. */
module Authoring {
  import opened Basics
  import opened Records
  import Routes
  import Store

  /** One multiple-choice option as the pages keep it: `{ key, text }`. */
  datatype OptionEntry = OptionEntry(key: string, text: string)

  /** The option keys, always these four, in this order. */
  const OptionKeys: seq<string> := ["A", "B", "C", "D"]

  /** A position in the four-option list. */
  type Slot = i: int | 0 <= i < 4

  /** The options carry the keys A, B, C, D in that order. */
  predicate StandardKeys(opts: seq<OptionEntry>) {
    |opts| == |OptionKeys| && forall i :: 0 <= i < |opts| ==> opts[i].key == OptionKeys[i]
  }

  /** The four options with empty texts, as both pages start (and CreateExam resets to). */
  function BlankOptions(): (r: seq<OptionEntry>)
    ensures StandardKeys(r)
    ensures forall i :: 0 <= i < |r| ==> r[i].text == ""
    ensures forall i, j :: 0 <= i < j < |r| ==> r[i].key != r[j].key
  {
    [OptionEntry("A", ""), OptionEntry("B", ""), OptionEntry("C", ""), OptionEntry("D", "")]
  }

  /** Copy the list and set the text of option `idx`. */
  function SetOptionText(opts: seq<OptionEntry>, idx: nat, text: string): (r: seq<OptionEntry>)
    requires idx < |opts|
    ensures |r| == |opts|
    ensures r[idx] == OptionEntry(opts[idx].key, text)
    ensures forall j :: 0 <= j < |r| && j != idx ==> r[j] == opts[j]
    ensures StandardKeys(opts) ==> StandardKeys(r)
  {
    opts[idx := opts[idx].(text := text)]
  }

  /** A later edit of the same option overrides an earlier one. */
  lemma SetOptionTextOverwrites(opts: seq<OptionEntry>, idx: nat, a: string, b: string)
    requires idx < |opts|
    ensures SetOptionText(SetOptionText(opts, idx, a), idx, b) == SetOptionText(opts, idx, b)
  {
    var lhs := SetOptionText(SetOptionText(opts, idx, a), idx, b);
    var rhs := SetOptionText(opts, idx, b);
    assert forall j :: 0 <= j < |lhs| ==> lhs[j] == rhs[j];
  }

  /** The payload object a page passes to `createQuestion`. `image` is the selected
      file, if any. */
  datatype Payload = Payload(
    questionType: string,
    text: string,
    options: Option<seq<OptionEntry>>,
    correctAnswer: Option<string>,
    language: Option<string>,
    starterCode: Option<string>,
    image: Option<string>)

  /** `createQuestion` in the API client: it appends `question_type` and `text`, appends
      `options_json` only when that string is non-empty, and attaches the file when
      there is one. `encode` stands for `JSON.stringify`. Nothing else of the payload
      is sent. */
  function ToWire(p: Payload, encode: seq<OptionEntry> -> string): (r: (Routes.QuestionForm, Option<string>))
    ensures r.0.questionType == p.questionType && r.0.text == p.text
    ensures r.0.optionsJson.Some? <==> p.options.Some? && encode(p.options.value) != ""
    ensures r.0.optionsJson.Some? ==> r.0.optionsJson.value == encode(p.options.value)
    ensures r.1 == p.image
  {
    var json := if p.options.Some? && encode(p.options.value) != "" then Some(encode(p.options.value)) else None;
    (Routes.QuestionForm(p.questionType, p.text, json), p.image)
  }

  /** Whatever answer key, language or starter code a page puts into its payload, the
      question the backend stores from it has none of them. */
  lemma PayloadKeyNeverStored(store: Store.Store, examId: int, teacherId: int, p: Payload,
                              encode: seq<OptionEntry> -> string, imageUrl: Option<string>)
    ensures var r := Routes.CreateQuestionRoute(store, examId, teacherId, ToWire(p, encode).0, imageUrl);
      r.Ok? ==> r.value.1.correctAnswer.None? && r.value.1.language.None? && r.value.1.starterCode.None?
                && r.value.1.questionType == p.questionType && r.value.1.text == p.text
  {
  }
}
