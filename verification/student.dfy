/** The student desktop client: joining an exam, splitting its questions into the
    multiple-choice and open sections, the values the answer widgets hold, and the
    answer list and draft file built from them. */
module Student {
  import opened Basics
  import opened Records
  import opened Seqs
  import Text
  import Decimal
  import Store
  import Results

  /** The value every multiple-choice answer holds until an option is picked. */
  const Unanswered: string := "Non répondu"

  // ---------------------------------------------------------------------------
  // Partition of the exam's questions
  // ---------------------------------------------------------------------------

  predicate IsMcq(q: Question) { q.questionType == MCQ }

  /** The open section takes CODE and SHORT questions. */
  predicate IsOpen(q: Question) { q.questionType == CODE || q.questionType == SHORT }

  function McqOf(qs: seq<Question>): (r: seq<Question>)
    ensures forall q :: q in r <==> q in qs && q.questionType == MCQ
    ensures |r| == Count(qs, IsMcq)
  {
    Filter(qs, IsMcq)
  }

  function OpenOf(qs: seq<Question>): (r: seq<Question>)
    ensures forall q :: q in r <==> q in qs && (q.questionType == CODE || q.questionType == SHORT)
    ensures |r| == Count(qs, IsOpen)
  {
    Filter(qs, IsOpen)
  }

  /** Both sections keep the exam's order: the questions before any cut come before the
      questions after it. */
  lemma PartitionKeepsOrder(qs: seq<Question>, cut: nat)
    requires cut <= |qs|
    ensures McqOf(qs) == McqOf(qs[..cut]) + McqOf(qs[cut..])
    ensures OpenOf(qs) == OpenOf(qs[..cut]) + OpenOf(qs[cut..])
  {
    assert qs == qs[..cut] + qs[cut..];
    FilterAppend(qs[..cut], qs[cut..], IsMcq);
    FilterAppend(qs[..cut], qs[cut..], IsOpen);
  }

  /** Every question lands in at most one section; those of any other type are not
      rendered. */
  lemma {:induction false} PartitionSizes(qs: seq<Question>)
    ensures |McqOf(qs)| + |OpenOf(qs)| + Count(qs, (q: Question) => !IsMcq(q) && !IsOpen(q)) == |qs|
  {
    if qs != [] {
      PartitionSizes(qs[1..]);
    }
  }

  /** Putting a question in front of a list whose ids are distinct and differ from its
      own keeps the ids distinct. */
  lemma ConsKeepsDistinctIds(q: Question, f: seq<Question>)
    requires DistinctQuestionIds(f)
    requires forall x :: x in f ==> x.id != q.id
    ensures DistinctQuestionIds([q] + f)
  {
    var r := [q] + f;
    forall i, j | 0 <= i < j < |r| ensures r[i].id != r[j].id {
      assert r[j] == f[j - 1];
      if i > 0 {
        assert r[i] == f[i - 1];
      } else {
        assert f[j - 1] in f;
      }
    }
  }

  /** A section of an exam with distinct question ids has distinct ids too. */
  lemma {:induction false} FilterKeepsDistinctIds(qs: seq<Question>, p: Question -> bool)
    requires DistinctQuestionIds(qs)
    ensures DistinctQuestionIds(Filter(qs, p))
  {
    if qs != [] {
      var rest := qs[1..];
      assert DistinctQuestionIds(rest);
      FilterKeepsDistinctIds(rest, p);
      if p(qs[0]) {
        var f := Filter(rest, p);
        assert Filter(qs, p) == [qs[0]] + f;
        forall x | x in f ensures x.id != qs[0].id {
          assert x in rest;
        }
        ConsKeepsDistinctIds(qs[0], f);
      }
    }
  }

  // ---------------------------------------------------------------------------
  // Options of a multiple-choice card
  // ---------------------------------------------------------------------------

  /** One element of the decoded `options_json` list: a dictionary (with or without
      `key` and `text`; a present text is given as Python's `str` of it) or any other
      value, given as its `str`. */
  datatype RawOption = DictOption(key: Option<string>, text: Option<string>) | PlainOption(repr: string)

  /** The radio button's value: the option's text (`"None"` when the dictionary has no
      text), or the raw option itself. */
  function ChoiceValue(o: RawOption): (v: string)
    ensures o.DictOption? && o.text.Some? ==> v == o.text.value
    ensures o.DictOption? && o.text.None? ==> v == "None"
    ensures o.PlainOption? ==> v == o.repr
  {
    match o
    case DictOption(_, text) => if text.Some? then text.value else "None"
    case PlainOption(repr) => repr
  }

  /** The option key plays no part in the value a student submits. */
  lemma ChoiceIgnoresKey(a: Option<string>, b: Option<string>, text: Option<string>)
    ensures ChoiceValue(DictOption(a, text)) == ChoiceValue(DictOption(b, text))
  {
  }

  /** The values a card offers. `decode` is `json.loads`; a missing or undecodable
      `options_json` leaves the card without radio buttons. */
  function Choices(q: Question, decode: string -> Option<seq<RawOption>>): (r: seq<string>)
    ensures q.optionsJson.None? || decode(q.optionsJson.value).None? ==> r == []
    ensures q.optionsJson.Some? && decode(q.optionsJson.value).Some? ==>
      var opts := decode(q.optionsJson.value).value;
      |r| == |opts| && forall i :: 0 <= i < |r| ==> r[i] == ChoiceValue(opts[i])
  {
    if q.optionsJson.None? then []
    else match decode(q.optionsJson.value)
      case None => []
      case Some(opts) => seq(|opts|, i requires 0 <= i < |opts| => ChoiceValue(opts[i]))
  }

  // ---------------------------------------------------------------------------
  // The session
  // ---------------------------------------------------------------------------

  /** A running exam: the two sections, the values each multiple-choice card offers,
      the value each card's variable holds, and what each open card's text box holds. */
  datatype Session = Session(
    studentId: string,
    examCode: string,
    qcm: seq<Question>,
    coding: seq<Question>,
    choices: seq<seq<string>>,
    picked: seq<string>,
    typed: seq<string>)

  /** Every rendered card has its widget. */
  predicate Rendered(s: Session) {
    |s.choices| == |s.qcm| && |s.picked| == |s.qcm| && |s.typed| == |s.coding|
  }

  /** Each multiple-choice variable holds the initial value or one its card offers. */
  predicate PicksOffered(s: Session) {
    Rendered(s) && forall j :: 0 <= j < |s.picked| ==> s.picked[j] == Unanswered || s.picked[j] in s.choices[j]
  }

  /** The answer to `GET /api/exam/{code}`: a status and the exam's questions, or no
      answer at all. */
  datatype Response = Responded(status: int, questions: seq<Question>) | Unreachable

  datatype StartOutcome = EmptyFields | InvalidCode | ServerError | Started(session: Session)

  /** `_show_exam_interface`: the multiple-choice cards, then the open cards, each
      with a fresh widget. */
  function Render(id: string, code: string, qs: seq<Question>,
                  decode: string -> Option<seq<RawOption>>): (s: Session)
    ensures s.studentId == id && s.examCode == code
    ensures s.qcm == McqOf(qs) && s.coding == OpenOf(qs)
    ensures PicksOffered(s)
    ensures forall j :: 0 <= j < |s.qcm| ==> s.choices[j] == Choices(s.qcm[j], decode)
    ensures forall j :: 0 <= j < |s.picked| ==> s.picked[j] == Unanswered
    ensures forall j :: 0 <= j < |s.typed| ==> s.typed[j] == ""
  {
    var qcm := McqOf(qs);
    var coding := OpenOf(qs);
    Session(id, code, qcm, coding,
            seq(|qcm|, j requires 0 <= j < |qcm| => Choices(qcm[j], decode)),
            seq(|qcm|, _ => Unanswered),
            seq(|coding|, _ => ""))
  }

  /** `_start_exam`: both fields are stripped and must be non-empty; only a 200 answer
      starts the exam. */
  function StartExam(rawId: string, rawCode: string, fetch: string -> Response,
                     decode: string -> Option<seq<RawOption>>): (r: StartOutcome)
    ensures r.EmptyFields? <==> Text.IsBlank(rawId) || Text.IsBlank(rawCode)
    ensures r.ServerError? <==> !r.EmptyFields? && fetch(Text.Strip(rawCode)).Unreachable?
    ensures r.InvalidCode? <==>
      !r.EmptyFields? && fetch(Text.Strip(rawCode)).Responded? && fetch(Text.Strip(rawCode)).status != 200
    ensures r.Started? ==>
      r.session == Render(Text.Strip(rawId), Text.Strip(rawCode), fetch(Text.Strip(rawCode)).questions, decode)
  {
    Text.StripEmptyIffBlank(rawId);
    Text.StripEmptyIffBlank(rawCode);
    var id := Text.Strip(rawId);
    var code := Text.Strip(rawCode);
    if id == [] || code == [] then EmptyFields
    else match fetch(code)
      case Unreachable => ServerError
      case Responded(status, qs) =>
        if status != 200 then InvalidCode else Started(Render(id, code, qs, decode))
  }

  /** Clicking radio button `o` of multiple-choice card `j`. */
  function Choose(s: Session, j: nat, o: nat): (r: Session)
    requires Rendered(s) && j < |s.qcm| && o < |s.choices[j]|
    ensures r == s.(picked := r.picked) && Rendered(r)
    ensures r.picked[j] == s.choices[j][o]
    ensures forall k :: 0 <= k < |r.picked| && k != j ==> r.picked[k] == s.picked[k]
    ensures PicksOffered(s) ==> PicksOffered(r)
  {
    s.(picked := s.picked[j := s.choices[j][o]])
  }

  /** Typing into the text box of open card `j`. */
  function TypeAnswer(s: Session, j: nat, content: string): (r: Session)
    requires Rendered(s) && j < |s.coding|
    ensures r == s.(typed := r.typed) && Rendered(r)
    ensures r.typed[j] == content
    ensures forall k :: 0 <= k < |r.typed| && k != j ==> r.typed[k] == s.typed[k]
    ensures PicksOffered(s) ==> PicksOffered(r)
  {
    s.(typed := s.typed[j := content])
  }

  // ---------------------------------------------------------------------------
  // The variable dictionaries
  // ---------------------------------------------------------------------------

  /** Position of key `k` in an insertion-ordered dictionary. */
  function KeyIndex(d: seq<(string, nat)>, k: string): (r: Option<nat>)
    ensures r.None? <==> forall i :: 0 <= i < |d| ==> d[i].0 != k
    ensures r.Some? ==> r.value < |d| && d[r.value].0 == k
  {
    if d == [] then None
    else if d[|d| - 1].0 == k then Some(|d| - 1)
    else KeyIndex(d[..|d| - 1], k)
  }

  /** `d[k] = v` on a Python dictionary: an existing key keeps its place and takes the
      new value; a new key goes at the end. */
  function Put(d: seq<(string, nat)>, k: string, v: nat): (r: seq<(string, nat)>)
    ensures KeyIndex(d, k).Some? ==> r == d[KeyIndex(d, k).value := (k, v)]
    ensures KeyIndex(d, k).None? ==> r == d + [(k, v)]
  {
    match KeyIndex(d, k)
    case Some(i) => d[i := (k, v)]
    case None => d + [(k, v)]
  }

  /** The keys of a dictionary are distinct. */
  predicate DistinctKeys(d: seq<(string, nat)>) {
    forall i, j :: 0 <= i < j < |d| ==> d[i].0 != d[j].0
  }

  /** After `d[k] = v`: the keys stay distinct, `k` maps to `v`, and every other entry
      is kept where it was. */
  lemma PutFacts(d: seq<(string, nat)>, k: string, v: nat)
    requires DistinctKeys(d)
    ensures var r := Put(d, k, v);
      && DistinctKeys(r)
      && |d| <= |r| <= |d| + 1
      && (exists i :: 0 <= i < |r| && r[i] == (k, v))
      && (forall i :: 0 <= i < |r| ==> r[i] == (k, v) || (i < |d| && r[i] == d[i] && d[i].0 != k))
      && (forall i :: 0 <= i < |d| ==> r[i].0 == d[i].0)
  {
    var r := Put(d, k, v);
    if KeyIndex(d, k).Some? {
      assert r[KeyIndex(d, k).value] == (k, v);
    } else {
      assert r[|d|] == (k, v);
    }
  }

  /** The dictionary key of a question's widget: `str(q["id"])`. */
  function Key(q: Question): string {
    Decimal.IntToString(q.id)
  }

  /** The keys of the cards `qs`, in render order. */
  function Keys(qs: seq<Question>): (r: seq<string>)
    ensures |r| == |qs| && forall i :: 0 <= i < |qs| ==> r[i] == Key(qs[i])
  {
    seq(|qs|, i requires 0 <= i < |qs| => Key(qs[i]))
  }

  /** The dictionary after `d[keys[i]] = i` for every card `i` in render order
      (`self.qcm_vars` or `self.code_texts`): each entry maps a key to the index of the
      card whose widget it holds. */
  function Registry(keys: seq<string>): (r: seq<(string, nat)>)
    ensures DistinctKeys(r) && |r| <= |keys|
    ensures forall i :: 0 <= i < |r| ==> r[i].1 < |keys| && r[i].0 == keys[r[i].1]
    decreases |keys|
  {
    if keys == [] then []
    else
      var n := |keys| - 1;
      var prev := Registry(keys[..n]);
      PutFacts(prev, keys[n], n);
      Put(prev, keys[n], n)
  }

  /** Every rendered card's key is in the dictionary ... */
  lemma {:induction false} RegistryCoversCards(keys: seq<string>, k: nat)
    requires k < |keys|
    ensures exists i :: 0 <= i < |Registry(keys)| && Registry(keys)[i].0 == keys[k]
    decreases |keys|
  {
    var n := |keys| - 1;
    var prev := Registry(keys[..n]);
    var r := Registry(keys);
    assert r == Put(prev, keys[n], n);
    PutFacts(prev, keys[n], n);
    if k < n {
      RegistryCoversCards(keys[..n], k);
      var i :| 0 <= i < |prev| && prev[i].0 == keys[..n][k];
      assert r[i].0 == keys[k];
    }
  }

  /** ... and holds the widget of the LAST card with that key: a later card with the
      same id replaces the earlier card's widget. */
  lemma {:induction false} RegistryKeepsLastCard(keys: seq<string>, i: nat, k: nat)
    requires i < |Registry(keys)|
    requires Registry(keys)[i].1 < k < |keys|
    ensures keys[k] != Registry(keys)[i].0
    decreases |keys|
  {
    var n := |keys| - 1;
    var prev := Registry(keys[..n]);
    var r := Registry(keys);
    assert r == Put(prev, keys[n], n);
    PutFacts(prev, keys[n], n);
    assert r[i] != (keys[n], n);
    assert i < |prev| && r[i] == prev[i] && prev[i].0 != keys[n];
    if k < n {
      RegistryKeepsLastCard(keys[..n], i, k);
      assert keys[..n][k] == keys[k];
    }
  }

  /** With distinct keys the dictionary holds every card, in render order. */
  lemma {:induction false} RegistryOfDistinct(keys: seq<string>)
    requires forall i, j :: 0 <= i < j < |keys| ==> keys[i] != keys[j]
    ensures |Registry(keys)| == |keys|
    ensures forall i :: 0 <= i < |keys| ==> Registry(keys)[i] == (keys[i], i)
    decreases |keys|
  {
    if keys != [] {
      var n := |keys| - 1;
      var front := keys[..n];
      DistinctFront(keys);
      RegistryOfDistinct(front);
      var prev := Registry(front);
      assert Registry(keys) == Put(prev, keys[n], n);
      assert forall i :: 0 <= i < n ==> front[i] == keys[i];
      PutFreshKey(prev, keys);
    }
  }

  /** Putting the last key, absent so far, after the entries `(keys[i], i)` of the
      others appends `(keys[n], n)`. */
  lemma PutFreshKey(prev: seq<(string, nat)>, keys: seq<string>)
    requires |keys| == |prev| + 1
    requires forall i :: 0 <= i < |prev| ==> prev[i] == (keys[i], i)
    requires forall i :: 0 <= i < |prev| ==> keys[i] != keys[|prev|]
    ensures var r := Put(prev, keys[|prev|], |prev|);
      |r| == |keys| && forall i :: 0 <= i < |keys| ==> r[i] == (keys[i], i)
  {
    var n := |prev|;
    assert KeyIndex(prev, keys[n]).None?;
    var r := Put(prev, keys[n], n);
    assert r == prev + [(keys[n], n)];
  }

  lemma DistinctFront(keys: seq<string>)
    requires keys != []
    requires forall i, j :: 0 <= i < j < |keys| ==> keys[i] != keys[j]
    ensures var front := keys[..|keys| - 1];
      forall i, j :: 0 <= i < j < |front| ==> front[i] != front[j]
  {
    var front := keys[..|keys| - 1];
    assert forall i :: 0 <= i < |front| ==> front[i] == keys[i];
  }

  /** Distinct question ids give distinct keys. */
  lemma DistinctIdsDistinctKeys(qs: seq<Question>)
    requires DistinctQuestionIds(qs)
    ensures forall i, j :: 0 <= i < j < |qs| ==> Keys(qs)[i] != Keys(qs)[j]
  {
    forall i, j | 0 <= i < j < |qs| ensures Keys(qs)[i] != Keys(qs)[j] {
      if Keys(qs)[i] == Keys(qs)[j] {
        Decimal.IntToStringInjective(qs[i].id, qs[j].id);
      }
    }
  }

  // ---------------------------------------------------------------------------
  // Submission and draft
  // ---------------------------------------------------------------------------

  /** What `t.get("0.0", "end").strip()` gives for a text box holding `content`: Tk
      appends a newline, which the strip removes with the other surrounding blanks. */
  function OpenText(content: string): (r: string)
    ensures r == [] || (!Text.IsSpace(r[0]) && !Text.IsSpace(r[|r| - 1]))
    ensures r == [] <==> Text.IsBlank(content)
    ensures exists i :: Text.Surrounded(content + "\n", r, i)
  {
    Text.StripEmptyIffBlank(content + "\n");
    assert Text.IsBlank(content + "\n") <==> Text.IsBlank(content) by {
      assert forall i :: 0 <= i < |content| ==> (content + "\n")[i] == content[i];
      assert Text.IsSpace((content + "\n")[|content|]);
    }
    Text.Strip(content + "\n")
  }

  /** The stripped contents of the open cards' text boxes, card by card. */
  function OpenTexts(typed: seq<string>): (r: seq<string>)
    ensures |r| == |typed|
  {
    Map(typed, OpenText)
  }

  lemma OpenTextsAt(typed: seq<string>, j: nat)
    requires j < |typed|
    ensures OpenTexts(typed)[j] == OpenText(typed[j])
  {
    MapAt(typed, OpenText, j);
  }

  /** One answer per dictionary entry, in dictionary order, with the key converted by
      `int` (a key `int` rejects would raise, modelled as `None`). */
  function AnswersOf(d: seq<(string, nat)>, values: seq<string>): (r: Option<seq<Answer>>)
    requires forall i :: 0 <= i < |d| ==> d[i].1 < |values|
    ensures r.Some? <==> forall i :: 0 <= i < |d| ==> Decimal.ParseInt(d[i].0).Some?
    ensures r.Some? ==> |r.value| == |d| && forall i :: 0 <= i < |d| ==>
      r.value[i] == Answer(Decimal.ParseInt(d[i].0).value, values[d[i].1])
    decreases |d|
  {
    if d == [] then Some([])
    else
      var n := |d| - 1;
      match AnswersOf(d[..n], values)
      case None => None
      case Some(front) =>
        match Decimal.ParseInt(d[n].0)
        case None => None
        case Some(id) => Some(front + [Answer(id, values[d[n].1])])
  }

  /** Keys written by `str` of an id always convert back to that id. */
  lemma RegistryKeysParse(qs: seq<Question>)
    ensures forall i :: 0 <= i < |Registry(Keys(qs))| ==>
      Decimal.ParseInt(Registry(Keys(qs))[i].0) == Some(qs[Registry(Keys(qs))[i].1].id)
  {
    var r := Registry(Keys(qs));
    forall i | 0 <= i < |r| ensures Decimal.ParseInt(r[i].0) == Some(qs[r[i].1].id) {
      Decimal.ParseIntToString(qs[r[i].1].id);
    }
  }

  /** One answer per entry of the dictionary of the cards `qs`, in dictionary order:
      the entry's question id and the value its widget holds. */
  function CardAnswers(qs: seq<Question>, values: seq<string>): (r: seq<Answer>)
    requires |values| == |qs|
    ensures var d := Registry(Keys(qs));
      |r| == |d| && forall i :: 0 <= i < |d| ==> r[i] == Answer(qs[d[i].1].id, values[d[i].1])
  {
    var d := Registry(Keys(qs));
    seq(|d|, i requires 0 <= i < |d| => Answer(qs[d[i].1].id, values[d[i].1]))
  }

  /** Converting the keys back with `int` never fails and recovers each card's id. */
  lemma AnswersOfRegistry(qs: seq<Question>, values: seq<string>)
    requires |values| == |qs|
    ensures AnswersOf(Registry(Keys(qs)), values) == Some(CardAnswers(qs, values))
  {
    var d := Registry(Keys(qs));
    RegistryKeysParse(qs);
    var r := AnswersOf(d, values);
    var c := CardAnswers(qs, values);
    assert forall i :: 0 <= i < |d| ==> Decimal.ParseInt(d[i].0).Some?;
    assert r.Some?;
    assert |r.value| == |c|;
    forall i | 0 <= i < |c| ensures r.value[i] == c[i] {
      assert Decimal.ParseInt(d[i].0) == Some(qs[d[i].1].id);
    }
    assert r.value == c;
  }

  /** `_submit_exam`: nothing is sent unless the student confirms; the body is every
      multiple-choice answer followed by every open answer, one per dictionary entry. */
  function Submit(s: Session, confirmed: bool): (r: Option<Store.SubmissionInput>)
    requires Rendered(s)
    ensures r.Some? <==> confirmed
    ensures r.Some? ==> r.value.studentName == s.studentId
    ensures r.Some? ==> r.value.answers == CardAnswers(s.qcm, s.picked) + CardAnswers(s.coding, OpenTexts(s.typed))
  {
    AnswersOfRegistry(s.qcm, s.picked);
    AnswersOfRegistry(s.coding, OpenTexts(s.typed));
    if !confirmed then None
    else
      var mcq := AnswersOf(Registry(Keys(s.qcm)), s.picked);
      var open := AnswersOf(Registry(Keys(s.coding)), OpenTexts(s.typed));
      Some(Store.SubmissionInput(s.studentId, mcq.value + open.value))
  }

  /** With distinct question ids the body has exactly one answer per rendered card:
      the multiple-choice cards in order, then the open cards in order. */
  lemma SubmitOnePerCard(s: Session)
    requires Rendered(s)
    requires DistinctQuestionIds(s.qcm) && DistinctQuestionIds(s.coding)
    ensures var answers := Submit(s, true).value.answers;
      && |answers| == |s.qcm| + |s.coding|
      && (forall j :: 0 <= j < |s.qcm| ==> answers[j] == Answer(s.qcm[j].id, s.picked[j]))
      && (forall j :: 0 <= j < |s.coding| ==>
            answers[|s.qcm| + j] == Answer(s.coding[j].id, OpenTexts(s.typed)[j]))
  {
    TwoSections(s.qcm, s.picked, s.coding, OpenTexts(s.typed));
  }

  /** The body built from two sections of cards with distinct ids lists the first
      section's cards, then the second's, each with its value. */
  lemma TwoSections(qcm: seq<Question>, picked: seq<string>, coding: seq<Question>, texts: seq<string>)
    requires |picked| == |qcm| && |texts| == |coding|
    requires DistinctQuestionIds(qcm) && DistinctQuestionIds(coding)
    ensures var answers := CardAnswers(qcm, picked) + CardAnswers(coding, texts);
      && |answers| == |qcm| + |coding|
      && (forall j :: 0 <= j < |qcm| ==> answers[j] == Answer(qcm[j].id, picked[j]))
      && (forall j :: 0 <= j < |coding| ==> answers[|qcm| + j] == Answer(coding[j].id, texts[j]))
  {
    var mcq := CardAnswers(qcm, picked);
    var open := CardAnswers(coding, texts);
    CardAnswersOfDistinct(qcm, picked);
    CardAnswersOfDistinct(coding, texts);
    var answers := mcq + open;
    forall j | 0 <= j < |qcm| ensures answers[j] == Answer(qcm[j].id, picked[j]) {
      assert answers[j] == mcq[j];
    }
    assert |mcq| == |qcm|;
    forall j | 0 <= j < |coding| ensures answers[|qcm| + j] == Answer(coding[j].id, texts[j]) {
      AppendAt(mcq, open, j);
    }
  }

  /** With distinct ids every card has its own entry, so the answers follow the cards. */
  lemma CardAnswersOfDistinct(qs: seq<Question>, values: seq<string>)
    requires |values| == |qs| && DistinctQuestionIds(qs)
    ensures |CardAnswers(qs, values)| == |qs|
    ensures forall j {:trigger CardAnswers(qs, values)[j]} :: 0 <= j < |qs| ==>
      CardAnswers(qs, values)[j] == Answer(qs[j].id, values[j])
  {
    DistinctIdsDistinctKeys(qs);
    RegistryOfDistinct(Keys(qs));
  }

  /** Each multiple-choice answer sent is the initial value or the text of an option
      its card offers. */
  lemma SubmittedChoicesOffered(s: Session)
    requires PicksOffered(s)
    ensures var answers := Submit(s, true).value.answers;
      var m := Registry(Keys(s.qcm));
      forall i :: 0 <= i < |m| ==>
        answers[i].answerText == Unanswered || answers[i].answerText in s.choices[m[i].1]
  {
    var answers := Submit(s, true).value.answers;
    var mcq := CardAnswers(s.qcm, s.picked);
    assert answers == mcq + CardAnswers(s.coding, OpenTexts(s.typed));
    assert forall i :: 0 <= i < |mcq| ==> answers[i] == mcq[i];
  }

  /** Joining an exam whose question ids are distinct (as the database guarantees)
      renders sections with distinct ids. */
  lemma StartedSectionsDistinct(qs: seq<Question>)
    requires DistinctQuestionIds(qs)
    ensures DistinctQuestionIds(McqOf(qs)) && DistinctQuestionIds(OpenOf(qs))
  {
    FilterKeepsDistinctIds(qs, IsMcq);
    FilterKeepsDistinctIds(qs, IsOpen);
  }

  /** An untouched multiple-choice card still sends a non-empty answer, so the results
      page counts the student as having answered it. */
  lemma UntouchedCardCountsAsAnswered(s: Session, sub: Submission)
    requires Rendered(s)
    requires forall j :: 0 <= j < |s.picked| ==> s.picked[j] == Unanswered
    requires sub.answers == Submit(s, true).value.answers
    ensures forall j :: 0 <= j < |s.qcm| ==> Results.HasNonEmptyAnswer(sub, s.qcm[j].id)
  {
    var m := Registry(Keys(s.qcm));
    forall j | 0 <= j < |s.qcm| ensures Results.HasNonEmptyAnswer(sub, s.qcm[j].id) {
      RegistryCoversCards(Keys(s.qcm), j);
      var i :| 0 <= i < |m| && m[i].0 == Keys(s.qcm)[j];
      Decimal.IntToStringInjective(s.qcm[m[i].1].id, s.qcm[j].id);
      assert sub.answers[i] == Answer(s.qcm[j].id, Unanswered);
    }
  }

  /** The draft file: two dictionaries, keyed by question-id string. */
  datatype Draft = Draft(qcm: map<string, string>, open: map<string, string>)

  /** `m` is the dictionary `{k: values[i] for k, i in d}`: exactly the keys of `d`,
      each with the value of its entry. */
  predicate IsDictOf(d: seq<(string, nat)>, values: seq<string>, m: map<string, string>)
    requires forall i :: 0 <= i < |d| ==> d[i].1 < |values|
  {
    && (forall k :: k in m ==> exists i :: 0 <= i < |d| && d[i].0 == k)
    && (forall i :: 0 <= i < |d| ==> d[i].0 in m && m[d[i].0] == values[d[i].1])
  }

  /** A dictionary comprehension over the entries of `d`. */
  function DictOf(d: seq<(string, nat)>, values: seq<string>): (m: map<string, string>)
    requires forall i :: 0 <= i < |d| ==> d[i].1 < |values|
    requires DistinctKeys(d)
    ensures IsDictOf(d, values, m)
    decreases |d|
  {
    if d == [] then map[]
    else
      var prev := DictOf(d[..|d| - 1], values);
      ExtendDict(d, values, prev);
      prev[d[|d| - 1].0 := values[d[|d| - 1].1]]
  }

  lemma ExtendDict(d: seq<(string, nat)>, values: seq<string>, prev: map<string, string>)
    requires |d| > 0 && forall i :: 0 <= i < |d| ==> d[i].1 < |values|
    requires DistinctKeys(d)
    requires IsDictOf(d[..|d| - 1], values, prev)
    ensures IsDictOf(d, values, prev[d[|d| - 1].0 := values[d[|d| - 1].1]])
  {
    var n := |d| - 1;
    var front := d[..n];
    var m := prev[d[n].0 := values[d[n].1]];
    assert forall i :: 0 <= i < n ==> front[i] == d[i];
    forall k | k in m ensures exists i :: 0 <= i < |d| && d[i].0 == k {
      if k != d[n].0 {
        var i :| 0 <= i < n && front[i].0 == k;
        assert d[i].0 == k;
      }
    }
    forall i | 0 <= i < |d| ensures d[i].0 in m && m[d[i].0] == values[d[i].1] {
      if i < n {
        assert d[i].0 != d[n].0;
        assert front[i].0 in prev;
      }
    }
  }

  /** `_auto_save`'s data: one entry per dictionary entry of each section. */
  function SaveDraft(s: Session): (r: Draft)
    requires Rendered(s)
    ensures forall i :: 0 <= i < |Registry(Keys(s.qcm))| ==>
      var e := Registry(Keys(s.qcm))[i]; e.0 in r.qcm && r.qcm[e.0] == s.picked[e.1]
    ensures forall i :: 0 <= i < |Registry(Keys(s.coding))| ==>
      var e := Registry(Keys(s.coding))[i]; e.0 in r.open && r.open[e.0] == OpenTexts(s.typed)[e.1]
  {
    Draft(DictOf(Registry(Keys(s.qcm)), s.picked), DictOf(Registry(Keys(s.coding)), OpenTexts(s.typed)))
  }

  /** The draft holds no key other than those of rendered cards. */
  lemma DraftKeysAreCards(s: Session)
    requires Rendered(s)
    ensures forall k :: k in SaveDraft(s).qcm ==> exists j :: 0 <= j < |s.qcm| && Key(s.qcm[j]) == k
    ensures forall k :: k in SaveDraft(s).open ==> exists j :: 0 <= j < |s.coding| && Key(s.coding[j]) == k
  {
    DictKeysAreCards(s.qcm, s.picked);
    DictKeysAreCards(s.coding, OpenTexts(s.typed));
  }

  /** Every key of a section's dictionary is the key of one of its cards. */
  lemma DictKeysAreCards(qs: seq<Question>, values: seq<string>)
    requires |values| == |qs|
    ensures forall k :: k in DictOf(Registry(Keys(qs)), values) ==>
      exists j :: 0 <= j < |qs| && Key(qs[j]) == k
  {
    var d := Registry(Keys(qs));
    forall k | k in DictOf(d, values) ensures exists j :: 0 <= j < |qs| && Key(qs[j]) == k {
      var i :| 0 <= i < |d| && d[i].0 == k;
      assert Key(qs[d[i].1]) == k;
    }
  }

  /** The answers from position `offset` on follow the dictionary built from the cards
      `qs`, entry by entry: each carries its entry's card id, and `dict` holds its text
      under the entry's key. */
  predicate SectionMatches(answers: seq<Answer>, offset: nat, qs: seq<Question>, dict: map<string, string>) {
    var d := Registry(Keys(qs));
    forall i :: 0 <= i < |d| ==>
      && offset + i < |answers|
      && answers[offset + i].questionId == qs[d[i].1].id
      && d[i].0 in dict && dict[d[i].0] == answers[offset + i].answerText
  }

  /** A section's answers, wherever they sit in a body, and the dictionary built from
      the same cards and values match. */
  lemma SectionAgrees(before: seq<Answer>, qs: seq<Question>, values: seq<string>, after: seq<Answer>)
    requires |values| == |qs|
    ensures SectionMatches(before + CardAnswers(qs, values) + after, |before|, qs,
                           DictOf(Registry(Keys(qs)), values))
  {
    var d := Registry(Keys(qs));
    var c := CardAnswers(qs, values);
    var answers := before + c + after;
    forall i | 0 <= i < |d|
      ensures answers[|before| + i] == Answer(qs[d[i].1].id, values[d[i].1])
    {
      assert answers[|before| + i] == c[i];
    }
  }

  /** The draft and the submission agree on the multiple-choice section: the i-th
      answer sent carries the id of the i-th dictionary entry's card, and the draft
      holds its text under that entry's key. */
  lemma DraftAgreesOnMcq(s: Session)
    requires Rendered(s)
    ensures SectionMatches(Submit(s, true).value.answers, 0, s.qcm, SaveDraft(s).qcm)
  {
    var mcq := CardAnswers(s.qcm, s.picked);
    var open := CardAnswers(s.coding, OpenTexts(s.typed));
    assert [] + mcq == mcq;
    assert Submit(s, true).value.answers == [] + mcq + open;
    SectionAgrees([], s.qcm, s.picked, open);
  }

  /** ... and on the open section, whose answers follow the multiple-choice ones. */
  lemma DraftAgreesOnOpen(s: Session)
    requires Rendered(s)
    ensures SectionMatches(Submit(s, true).value.answers, |CardAnswers(s.qcm, s.picked)|,
                           s.coding, SaveDraft(s).open)
  {
    var mcq := CardAnswers(s.qcm, s.picked);
    var open := CardAnswers(s.coding, OpenTexts(s.typed));
    assert Submit(s, true).value.answers == mcq + open + [];
    SectionAgrees(mcq, s.coding, OpenTexts(s.typed), []);
  }
}
