/** The spreadsheet export of an exam's submissions: a header row, then one row per
    submission with the student name, the submission date and one cell per question. */
module Export {
  import opened Basics
  import opened Records
  import opened Seqs
  import Decimal

  /** The header: two fixed labels, then `Question 1 .. Question n`. */
  function HeaderRow(questionCount: nat): (r: seq<string>)
    ensures |r| == questionCount + 2
    ensures r[0] == "Étudiant" && r[1] == "Date Soumission"
    ensures forall i :: 2 <= i < |r| ==> r[i] == "Question " + Decimal.NatToString(i - 1)
  {
    ["Étudiant", "Date Soumission"]
      + seq(questionCount, i requires 0 <= i < questionCount =>
              "Question " + Decimal.NatToString(i + 1))
  }

  /** No two header cells carry the same label. */
  lemma HeaderLabelsDistinct(n: nat, i: nat, j: nat)
    requires i < j < n + 2
    ensures HeaderRow(n)[i] != HeaderRow(n)[j]
  {
    var r := HeaderRow(n);
    if i >= 2 {
      var p := "Question ";
      assert r[i][..|p|] == p && r[j][..|p|] == p;
      if r[i] == r[j] {
        assert r[i][|p|..] == Decimal.NatToString(i - 1);
        assert r[j][|p|..] == Decimal.NatToString(j - 1);
        Decimal.NatToStringInjective(i - 1, j - 1);
      }
    } else if i == 0 {
      assert r[i][0] == 'É';
      assert r[j][0] != 'É';
    } else {
      assert r[i][0] == 'D' && r[j][0] == 'Q';
    }
  }

  /** `m` maps every question id of `qs` to the LAST column holding that id. */
  predicate IsColumnMap(qs: seq<Question>, m: map<int, nat>) {
    && (forall k :: 0 <= k < |qs| ==> qs[k].id in m)
    && (forall id :: id in m ==>
          m[id] < |qs| && qs[m[id]].id == id && forall k :: m[id] < k < |qs| ==> qs[k].id != id)
  }

  /** `q_map = {q.id: i for i, q in enumerate(exam.questions)}`: each question id mapped
      to its column; a repeated id keeps its last column. */
  function QuestionMap(qs: seq<Question>): (m: map<int, nat>)
    ensures IsColumnMap(qs, m)
    decreases |qs|
  {
    if qs == [] then map[]
    else
      var prev := QuestionMap(qs[..|qs| - 1]);
      ExtendColumnMap(qs, prev);
      prev[qs[|qs| - 1].id := |qs| - 1]
  }

  /** Assigning the last column after the others keeps the map a column map. */
  lemma ExtendColumnMap(qs: seq<Question>, prev: map<int, nat>)
    requires |qs| > 0 && IsColumnMap(qs[..|qs| - 1], prev)
    ensures IsColumnMap(qs, prev[qs[|qs| - 1].id := |qs| - 1])
  {
    var n := |qs| - 1;
    var init := qs[..n];
    var m := prev[qs[n].id := n];
    assert forall k :: 0 <= k < n ==> init[k] == qs[k];
    forall k | 0 <= k < |qs| ensures qs[k].id in m {
      if k < n {
        assert init[k].id in prev;
      }
    }
    forall id | id in m
      ensures m[id] < |qs| && qs[m[id]].id == id && forall k :: m[id] < k < |qs| ==> qs[k].id != id
    {
      if id != qs[n].id {
        assert m[id] == prev[id] && prev[id] < n && init[prev[id]].id == id;
        forall k | prev[id] < k < |qs| ensures qs[k].id != id {
          if k < n {
            assert init[k].id != id;
          }
        }
      }
    }
  }

  /** Reference meaning of column `k`: the text of the LAST answer whose question maps to
      column `k`, or "" when there is none. */
  function CellText(m: map<int, nat>, answers: seq<Answer>, k: nat): string {
    if answers == [] then ""
    else
      var a := answers[|answers| - 1];
      if a.questionId in m && m[a.questionId] == k then a.answerText
      else CellText(m, answers[..|answers| - 1], k)
  }

  /** The `ans_row` loop: start with "" in every column, then let each answer in order
      overwrite the column of its question; answers to other questions are skipped. */
  method AnswerCells(questions: seq<Question>, answers: seq<Answer>) returns (cells: seq<string>)
    ensures |cells| == |questions|
    ensures forall k :: 0 <= k < |questions| ==> cells[k] == CellText(QuestionMap(questions), answers, k)
  {
    var qMap := QuestionMap(questions);
    cells := seq(|questions|, _ => "");
    for j := 0 to |answers|
      invariant |cells| == |questions|
      invariant forall k :: 0 <= k < |questions| ==> cells[k] == CellText(qMap, answers[..j], k)
    {
      var ans := answers[j];
      assert answers[..j + 1][..j] == answers[..j];
      assert answers[..j + 1][j] == ans;
      if ans.questionId in qMap {
        cells := cells[qMap[ans.questionId] := ans.answerText];
      }
    }
    assert answers[..|answers|] == answers;
  }

  /** One data row: name, formatted date, then the answer cells. `formatDate` stands
      for the `strftime` call. */
  method ExportRow(questions: seq<Question>, sub: Submission, formatDate: int -> string)
    returns (row: seq<string>)
    ensures |row| == |questions| + 2
    ensures row[0] == sub.studentName && row[1] == formatDate(sub.submittedAt)
    ensures forall k :: 0 <= k < |questions| ==>
      row[k + 2] == CellText(QuestionMap(questions), sub.answers, k)
  {
    var cells := AnswerCells(questions, sub.answers);
    row := [sub.studentName, formatDate(sub.submittedAt)] + cells;
  }

  /** `row` is the export row of `sub`. */
  predicate IsExportRow(questions: seq<Question>, sub: Submission, formatDate: int -> string,
                        row: seq<string>)
  {
    && |row| == |questions| + 2
    && row[0] == sub.studentName
    && row[1] == formatDate(sub.submittedAt)
    && forall k :: 0 <= k < |questions| ==>
         row[k + 2] == CellText(QuestionMap(questions), sub.answers, k)
  }

  /** The sheet `export_results` fills: the header, then one row per submission in
      submission order, each as wide as the header (there is no score column). */
  method ExportSheet(exam: Exam, subs: seq<Submission>, formatDate: int -> string)
    returns (sheet: seq<seq<string>>)
    ensures |sheet| == |subs| + 1
    ensures sheet[0] == HeaderRow(|exam.questions|)
    ensures forall i :: 1 <= i < |sheet| ==>
      IsExportRow(exam.questions, subs[i - 1], formatDate, sheet[i])
  {
    var rows: seq<seq<string>> := [];
    for i := 0 to |subs|
      invariant |rows| == i
      invariant forall t :: 0 <= t < i ==> IsExportRow(exam.questions, subs[t], formatDate, rows[t])
    {
      var row := ExportRow(exam.questions, subs[i], formatDate);
      rows := rows + [row];
    }
    sheet := [HeaderRow(|exam.questions|)] + rows;
  }

  /** The text of the last answer to `qid`, or "". */
  function LastAnswerText(answers: seq<Answer>, qid: int): string {
    if answers == [] then ""
    else if answers[|answers| - 1].questionId == qid then answers[|answers| - 1].answerText
    else LastAnswerText(answers[..|answers| - 1], qid)
  }

  /** With distinct question ids (as stored), column `k` holds the last answer given to
      question `k`: later answers overwrite earlier ones. */
  lemma {:induction false} CellIsLastAnswer(qs: seq<Question>, answers: seq<Answer>, k: nat)
    requires DistinctQuestionIds(qs)
    requires k < |qs|
    ensures CellText(QuestionMap(qs), answers, k) == LastAnswerText(answers, qs[k].id)
  {
    if answers != [] {
      var m := QuestionMap(qs);
      var a := answers[|answers| - 1];
      if a.questionId == qs[k].id {
        assert a.questionId in m;
      } else if a.questionId in m {
        assert m[a.questionId] != k;
      }
      CellIsLastAnswer(qs, answers[..|answers| - 1], k);
    }
  }

  /** A cell is "" exactly when the submission never answered that question. */
  lemma {:induction false} EmptyCellWhenUnanswered(qs: seq<Question>, answers: seq<Answer>, k: nat)
    requires DistinctQuestionIds(qs)
    requires k < |qs|
    requires forall i :: 0 <= i < |answers| ==> answers[i].questionId != qs[k].id
    ensures CellText(QuestionMap(qs), answers, k) == ""
  {
    CellIsLastAnswer(qs, answers, k);
    LastAnswerOfNone(answers, qs[k].id);
  }

  lemma {:induction false} LastAnswerOfNone(answers: seq<Answer>, qid: int)
    requires forall i :: 0 <= i < |answers| ==> answers[i].questionId != qid
    ensures LastAnswerText(answers, qid) == ""
  {
    if answers != [] {
      LastAnswerOfNone(answers[..|answers| - 1], qid);
    }
  }

  /** The answers whose question has a column, in their original order. */
  function OwnAnswers(m: map<int, nat>, answers: seq<Answer>): (r: seq<Answer>)
    ensures forall i :: 0 <= i < |r| ==> r[i].questionId in m && r[i] in answers
    ensures forall i :: 0 <= i < |answers| && answers[i].questionId in m ==> answers[i] in r
  {
    if answers == [] then []
    else
      var init := answers[..|answers| - 1];
      var a := answers[|answers| - 1];
      var r := OwnAnswers(m, init);
      assert forall x :: x in init ==> x in answers;
      assert forall i :: 0 <= i < |init| ==> init[i] == answers[i];
      if a.questionId in m then r + [a] else r
  }

  /** Answers to questions outside the exam leave every cell as it was. */
  lemma {:induction false} ForeignAnswersIgnored(m: map<int, nat>, answers: seq<Answer>, k: nat)
    ensures CellText(m, answers, k) == CellText(m, OwnAnswers(m, answers), k)
  {
    if answers != [] {
      var init := answers[..|answers| - 1];
      var a := answers[|answers| - 1];
      ForeignAnswersIgnored(m, init, k);
      var f := OwnAnswers(m, init);
      if a.questionId in m {
        assert (f + [a])[..|f|] == f;
      }
    }
  }
}
