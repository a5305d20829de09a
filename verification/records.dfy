/** The stored records (Exam, Question, Submission, Answer) with the fields the
    backend tables and response schemas give them. */
module Records {
  import opened Basics

  /** The question types the authoring forms offer; `question_type` itself is a free string. */
  const MCQ: string := "MCQ"
  const SHORT: string := "SHORT"
  const CODE: string := "CODE"

  /** A question row. `optionsJson` is the JSON text of the option list, kept opaque. */
  datatype Question = Question(
    id: int,
    examId: int,
    questionType: string,
    text: string,
    imageUrl: Option<string>,
    optionsJson: Option<string>,
    correctAnswer: Option<string>,
    language: Option<string>,
    starterCode: Option<string>)

  /** An exam row together with its questions in storage order. `createdAt` is an
      abstract clock value. */
  datatype Exam = Exam(
    id: int,
    title: string,
    description: Option<string>,
    timeLimit: int,
    code: string,
    teacherId: int,
    createdAt: int,
    questions: seq<Question>)

  datatype Answer = Answer(questionId: int, answerText: string)

  /** A submission row together with its answers in insertion order. */
  datatype Submission = Submission(
    id: int,
    examId: int,
    studentName: string,
    submittedAt: int,
    answers: seq<Answer>)

  /** No two questions of the exam share an id (the store guarantees this). */
  predicate DistinctQuestionIds(qs: seq<Question>) {
    forall i, j :: 0 <= i < j < |qs| ==> qs[i].id != qs[j].id
  }
}
