# lesspaper in Dafny

lesspaper is an exam system with three parts. Instructors author exams in a web client: a
header, then MCQ, SHORT and CODE questions. A FastAPI backend stores exams, questions,
submissions and answers, and hands each exam a six-character access code. Students take the
exam in a desktop client that partitions the questions, keeps one widget per question, saves a
draft and posts the answer list.

This project models the logic of that system as pure Dafny functions, methods and lemmas over
immutable records:

- `records.dfy`: the four stored records.
- `store.dfy`: the store with its invariant, code generation, exam creation, the lookups, the
  cascading delete and submission recording.
- `routes.dfy`: the HTTP routes with their owner-or-404 guard and the question field mapping.
- `export.dfy`: the spreadsheet projection.
- `results.dfy`: the results page statistics, the score badge and the verdicts.
- `dashboard.dfy`: the dashboard reduction.
- `authoring.dfy`, `exam_details.dfy`, `create_exam.dfy`: the two authoring pages and the API
  client's form encoding.
- `student.dfy`: the student client's start, partition, widgets, answer list and draft.
- `text.dfy`, `decimal.dfy`, `seqs.dfy`, `basics.dfy`: whitespace stripping, decimal
  conversion, generic sequence lemmas and the Option/Result wrappers.

Behaviour is modelled as the code has it, including where it departs from the intended
design:

- The backend never stores a question's correct answer, language or starter code.
  `main.py:144-150` builds the row from type, text, options and image only, and
  `api.js:75-90` does not even send the other fields. So every score is 0 and every badge
  fails (`Routes.ScoringIsInert`). Creating an exam, adding a question, deleting an exam
  and submitting all keep the store free of answer keys (`Routes.CreateExamKeepsNoAnswerKeys`
  and its siblings).
- Scoring compares the answer text with the correct answer exactly. The student client sends
  option texts, not keys.
- `create_exam` has no retry bound and does not check the time limit.
- Submissions are not filtered for foreign or repeated question ids. Repeated correct answers
  each earn a point (`Results.RepeatedAnswersInflateScore`).
- The export has no score column.
- The exam creation page renders a title input only. The description therefore stays "" and
  the time limit stays 60.
- The exam details page's add handler has no `catch`, so a rejected request skips its resets.

Fresh primary keys are one more than the largest key in use. The database setup is not part
of this model.

## Model

| member | source | states |
|---|---|---|
| Store.GenerateExamCode | prof/profweb/backend/crud.py:20-21 | every generated code has six characters, each an upper-case letter or a digit |
| Store.EveryCodeCanBeDrawn | prof/profweb/backend/crud.py:20-21 | conversely, every six-character A–Z/0–9 string is produced by some draw, so the code space is exactly the well-formed codes |
| Store.CreateExam | prof/profweb/backend/crud.py:23-34 | the exam gets the code of the first draw no stored exam uses, and `None` results exactly when every given draw collides. The title, description and time limit are copied unchanged, the caller becomes teacher, the exam is appended, and store validity (unique ids and codes) is preserved |
| Store.EmptyValid | prof/profweb/backend/main.py:20 | the freshly created, empty database satisfies every store invariant, so the invariants hold from the start |
| Store.AppendExamValid | prof/profweb/backend/models.py:22 | appending an exam with a fresh id and an unused code keeps every store invariant, including unique codes |
| Store.GetExamById | prof/profweb/backend/crud.py:39-40 | returns the first exam with that id, and none exactly when no exam has it |
| Store.GetExamByCode | prof/profweb/backend/crud.py:42-43 | returns the first exam with that code, and none exactly when no exam has it |
| Store.CodeResolvesUniquely | prof/profweb/backend/models.py:22 | in a valid store each exam's code resolves back to that very exam |
| Store.GetExamsByTeacher | prof/profweb/backend/crud.py:36-37 | the result holds exactly the exams of that teacher, and its length is their count |
| Store.GetSubmissionsByExam | prof/profweb/backend/crud.py:81-82 | the result holds exactly the submissions of that exam, and its length is their count |
| Store.SubmissionsOutside | prof/profweb/backend/models.py:28 | the surviving submissions are exactly those of other exams, and their ids stay distinct |
| Store.DeleteExam | prof/profweb/backend/crud.py:52-58 | reports true exactly when an exam has the id. It then removes that exam and every submission of it. Otherwise it reports false and leaves the store unchanged |
| Store.RemoveExamKeepsDistinct | prof/profweb/backend/models.py:22 | removing one exam keeps ids and codes unique and questions filed, and no survivor has the removed id |
| Store.DeleteExamCascades | prof/profweb/backend/models.py:27-28 | after a deletion the store is still valid, and no exam, question or submission of the deleted exam remains |
| Store.SurvivorsKeepTheirExam | prof/profweb/backend/models.py:62 | every surviving submission (with its answers) still belongs to an exam that is present: no orphans |
| Store.CreateSubmission | prof/profweb/backend/crud.py:60-79 | the new submission belongs to the exam, is stamped with the clock and has a fresh id. Its answers copy the input answers one for one, in order, unfiltered. Validity is preserved |
| Routes.OwnedExam | prof/profweb/backend/main.py:109-111 | succeeds exactly when the first exam with the id belongs to the caller, and then returns that exam |
| Routes.DeleteExamRoute | prof/profweb/backend/main.py:107-113 | 404 exactly when the caller does not own the exam. Otherwise exactly that exam is removed from the list, every other exam stays, exactly the submissions of other exams stay, and a valid store stays valid |
| Routes.NewQuestion | prof/profweb/backend/main.py:144-150 | the stored question takes only exam id, type, text, options and image. Correct answer, language and starter code are null, and the id is fresh |
| Routes.CreateQuestionRoute | prof/profweb/backend/main.py:117-154 | 404 exactly when the caller does not own the exam. Otherwise the question is appended to that exam alone, submissions are untouched and validity is preserved |
| Routes.AddQuestionValid | prof/profweb/backend/main.py:144-153 | appending a question with a fresh id to its own exam keeps the store valid |
| Routes.StudentExamRoute | prof/profweb/backend/main.py:158-163 | 404 exactly when no exam has the code, otherwise an exam carrying that code |
| Routes.SubmitRoute | prof/profweb/backend/main.py:165-170 | 404 exactly for an unknown code. Otherwise a submission with a fresh id, the clock stamp and the answers as sent, against the exam with that code, is appended after every earlier submission. Exams are untouched and validity is preserved |
| Routes.ResultsRoute | prof/profweb/backend/main.py:172-177 | 404 exactly when the caller does not own the exam, otherwise exactly that exam's submissions |
| Routes.ExportRoute | prof/profweb/backend/main.py:179-204 | 404 exactly when the caller does not own the exam. Otherwise the header is followed by one export row per submission of the exam |
| Routes.CreateQuestionKeepsNoAnswerKeys | prof/profweb/backend/main.py:144-150 | if no stored question has an answer key, language or starter code, adding a question keeps it so |
| Routes.DeleteExamKeepsNoAnswerKeys | prof/profweb/backend/main.py:107-113 | deleting an exam keeps the store free of answer keys |
| Routes.CreateExamKeepsNoAnswerKeys | prof/profweb/backend/crud.py:23-33 | appending a new exam, which has no questions, keeps the store free of answer keys |
| Routes.SubmitKeepsNoAnswerKeys | prof/profweb/backend/main.py:165-170 | recording a submission keeps the store free of answer keys |
| Routes.ScoringIsInert | prof/profweb/backend/main.py:144-150 | in a store free of answer keys, every correct count and score is 0 and every badge shown fails |
| Export.HeaderRow | prof/profweb/backend/main.py:190-195 | the header is "Étudiant", "Date Soumission", then "Question 1" … "Question n": n + 2 cells |
| Export.HeaderLabelsDistinct | prof/profweb/backend/main.py:190-195 | no two header cells carry the same label |
| Export.QuestionMap | prof/profweb/backend/main.py:191 | maps every question id of the exam to a column holding it, and no later column holds the same id: a repeated id keeps its last column |
| Export.AnswerCells | prof/profweb/backend/main.py:199-202 | the overwrite loop yields, for every column, the text of the last answer mapped to that column ("" if none) |
| Export.ExportRow | prof/profweb/backend/main.py:198-203 | a row is the student name, the formatted date, then one answer cell per question |
| Export.ExportSheet | prof/profweb/backend/main.py:190-204 | the sheet is the header followed by exactly one row per submission, in submission order, each n + 2 wide |
| Export.CellIsLastAnswer | prof/profweb/backend/main.py:200-202 | with distinct question ids, column k holds the last answer the submission gave to question k |
| Export.EmptyCellWhenUnanswered | prof/profweb/backend/main.py:199-201 | a question the submission never answered has an empty cell |
| Export.OwnAnswers | prof/profweb/backend/main.py:201 | keeps exactly the answers whose question has a column |
| Export.ForeignAnswersIgnored | prof/profweb/backend/main.py:200-201 | dropping the answers to questions outside the exam changes no cell |
| Results.FirstAnswer | prof/profweb/src/pages/Results.jsx:61 | none exactly when no answer targets the question; otherwise the earliest answer to it |
| Results.IsCorrect | prof/profweb/src/pages/Results.jsx:200-203 | a question is marked correct only if it is an MCQ with a stored key and some answer to it equals that key, so the mark is false for other types and for unanswered questions |
| Results.QuestionStats | prof/profweb/src/pages/Results.jsx:55-70 | one entry per exam question, in exam order, named `Q{idx+1}`, with answered and correct counts each at most the number of submissions |
| Results.StatNamesDistinct | prof/profweb/src/pages/Results.jsx:66 | no two bars share a name |
| Results.NonMcqNeverCorrect | prof/profweb/src/pages/Results.jsx:59-60 | the correct count of a non-MCQ question is 0 |
| Results.CorrectWithinAnswered | prof/profweb/src/pages/Results.jsx:56-63 | with a non-empty answer key the correct count never exceeds the answered count |
| Results.CorrectCountMatchesVerdicts | prof/profweb/src/pages/Results.jsx:59-63 | the chart's correct count equals the number of submissions whose detail view marks the question correct |
| Results.TypeDistribution | prof/profweb/src/pages/Results.jsx:72-76 | at most three slices, all positive. Each label appears with its question count exactly when that count is positive, and nothing else appears |
| Results.TypeDistributionOrder | prof/profweb/src/pages/Results.jsx:72-76 | the slices keep the fixed QCM, LIBRE, CODE order |
| Results.TypeDistributionTotal | prof/profweb/src/pages/Results.jsx:72-76 | the slice values add up to the number of questions whose type is MCQ, SHORT or CODE |
| Results.Stats | prof/profweb/src/pages/Results.jsx:52-79 | null exactly when the exam is absent or there are no submissions. Otherwise bar j is named Q(j+1) and carries question j's answered and correct counts, and the pie holds exactly the non-zero type counts, each under its label |
| Results.McqQuestions | prof/profweb/src/pages/Results.jsx:168 | as many entries as the exam has MCQ questions; an exam question is in the list exactly when it is an MCQ |
| Results.McqQuestionsKeepOrder | prof/profweb/src/pages/Results.jsx:168 | the list distributes over any split of the exam's questions, so the MCQs keep exam order |
| Results.FindQuestion | prof/profweb/src/pages/Results.jsx:170 | the first question with that id, and none exactly when there is none |
| Results.ScoreBadge | prof/profweb/src/pages/Results.jsx:189-191 | shown exactly when the exam has MCQ questions. Its total is that count and its score is the number of answers earning a point. It passes exactly when score / total ≥ 0.5 in exact real arithmetic (the source divides in doubles; see "## Left out") |
| Results.HalfRatio | prof/profweb/src/pages/Results.jsx:190 | c / n ≥ 0.5 exactly when 2c ≥ n, for n > 0 |
| Results.CorrectOnesWithinMcqCount | prof/profweb/src/pages/Results.jsx:169-172 | when a submission answers each question at most once, its score never exceeds the MCQ count |
| Results.RepeatedAnswersInflateScore | prof/profweb/src/pages/Results.jsx:169-172 | without that condition the badge can read 2/1: two equal correct answers to the only MCQ both count |
| Dashboard.RoundedAverage | prof/profweb/src/pages/Dashboard.jsx:53 | 0 for an empty exam list, otherwise the integer r with 2nr ≤ 2t + n < 2nr + 2n, that is t / n rounded half up |
| Dashboard.LoadExams | prof/profweb/src/pages/Dashboard.jsx:28-55 | a failed listing keeps the previous statistics. Otherwise there is one activity entry per exam, in order, with the upper-cased title and the fetched count (0 on a failed or null fetch). The total is the sum of the counts, the average is the rounded average, and the recent activity is the first min(5, n) entries |
| Dashboard.UniformAverage | prof/profweb/src/pages/Dashboard.jsx:53 | when every exam has k submissions the average is exactly k |
| Dashboard.UniformTotal | prof/profweb/src/pages/Dashboard.jsx:40 | when every exam has k submissions the total is n·k |
| Authoring.BlankOptions | prof/profweb/src/pages/ExamDetails.jsx:13-18 | four empty options keyed A, B, C, D in that order, keys pairwise distinct |
| Authoring.SetOptionText | prof/profweb/src/pages/ExamDetails.jsx:34-38 | only the text of option idx changes. Its key and every other option are kept, and so are the A–D keys |
| Authoring.SetOptionTextOverwrites | prof/profweb/src/pages/CreateExam.jsx:151 | a later edit of the same option overrides an earlier one |
| Authoring.ToWire | prof/profweb/src/api.js:75-90 | the form carries type and text. `options_json` is present exactly when the options encode to a non-empty string, and the file is attached when there is one. Nothing else is sent |
| Authoring.PayloadKeyNeverStored | prof/profweb/src/api.js:80-90 | whatever answer key, language or starter code a page's payload holds, the stored question has none of them but keeps the payload's type and text |
| ExamDetails.InitialForm | prof/profweb/src/pages/ExamDetails.jsx:11-21 | the form starts as MCQ with empty text, empty A–D options, answer "A", language "python" and empty starter code |
| ExamDetails.ChangeOption | prof/profweb/src/pages/ExamDetails.jsx:34-38 | only option idx's text changes, and the form stays well formed |
| ExamDetails.SelectCorrect | prof/profweb/src/pages/ExamDetails.jsx:163-164 | the chosen answer is one of A–D and names the option at that slot |
| ExamDetails.BuildPayload | prof/profweb/src/pages/ExamDetails.jsx:42-49 | options and correct answer are non-null exactly for MCQ, and language and starter code exactly for CODE, each carrying the form's value |
| ExamDetails.PayloadAnswerIsOptionKey | prof/profweb/src/pages/ExamDetails.jsx:42-49 | a well-formed MCQ form's payload names as answer the key of one of the options it sends |
| ExamDetails.AddQuestion | prof/profweb/src/pages/ExamDetails.jsx:40-55 | nothing is sent unless the required fields are filled. Only an accepted request resets anything, and then only the text and the starter code. Type, options, answer and language are kept |
| ExamDetails.StepKeepsWellFormed | prof/profweb/src/pages/ExamDetails.jsx:128-180 | every edit the form offers keeps the A–D keys and an answer among them |
| ExamDetails.ReachableFormsWellFormed | prof/profweb/src/pages/ExamDetails.jsx:11-21 | every form reachable from the initial one is well formed |
| ExamDetails.RunKeepsWellFormed | prof/profweb/src/pages/ExamDetails.jsx:128-180 | any sequence of edits from a well-formed form ends well formed |
| CreateExam.InitialPage | prof/profweb/src/pages/CreateExam.jsx:7-23 | the page starts in the header phase with no exam id, time limit 60, type MCQ, no file and empty A–D options |
| CreateExam.StartRequest | prof/profweb/src/pages/CreateExam.jsx:37-41 | the request copies title, description and integer time limit |
| CreateExam.StartExam | prof/profweb/src/pages/CreateExam.jsx:33-56 | a request is sent exactly when the title is filled. The phase becomes QUESTIONS (with the id) exactly when the response carries a truthy id; otherwise the page is unchanged |
| CreateExam.StartSendsDefaultLimit | prof/profweb/src/pages/CreateExam.jsx:12-40 | filling only the title sends the 60-minute default limit |
| CreateExam.QuestionPayload | prof/profweb/src/pages/CreateExam.jsx:62-67 | options only for MCQ, never an answer key, language or starter code, and the selected image |
| CreateExam.AddQuestion | prof/profweb/src/pages/CreateExam.jsx:58-86 | a blank statement sends nothing. An accepted save clears text, file and preview and resets four empty A–D options. A rejected save changes nothing |
| CreateExam.ChooseFile | prof/profweb/src/pages/CreateExam.jsx:25-31 | a chosen file sets file and preview together, and a cancelled dialog changes nothing |
| CreateExam.Step | prof/profweb/src/pages/CreateExam.jsx:97-151 | every user action keeps file and preview set together and the A–D keys |
| CreateExam.PhaseIsMonotone | prof/profweb/src/pages/CreateExam.jsx:44-49 | the page never leaves the question phase and is never in it without an exam id |
| CreateExam.ReachablePagesConsistent | prof/profweb/src/pages/CreateExam.jsx:7-23 | every page reachable from the initial one is consistent, and in the question phase it has an exam id |
| Student.McqOf | student/lesspaper.py:92 | exactly the MCQ questions |
| Student.OpenOf | student/lesspaper.py:93 | exactly the CODE and SHORT questions |
| Student.PartitionKeepsOrder | student/lesspaper.py:92-93 | both sections preserve exam order: the sections of a concatenation are the concatenated sections |
| Student.PartitionSizes | student/lesspaper.py:92-93 | each question lands in at most one section, and those of other types in neither |
| Student.StartedSectionsDistinct | student/lesspaper.py:92-93 | sections of an exam with distinct question ids have distinct ids |
| Student.ChoiceValue | student/lesspaper.py:161-162 | a dictionary option offers its text, or "None" when it has no text; any other option offers its own `str` |
| Student.ChoiceIgnoresKey | student/lesspaper.py:161-162 | the option key plays no part in the value offered |
| Student.Choices | student/lesspaper.py:158-163 | no choices when the options are missing or undecodable, otherwise one choice per decoded option |
| Student.Render | student/lesspaper.py:120-167 | the MCQ section then the open section, each card with its choices, every MCQ variable at "Non répondu" and every text box empty |
| Student.StartExam | student/lesspaper.py:79-104 | refused exactly when the stripped id or code is blank. A server error occurs exactly when the server is unreachable, and an invalid code exactly when the status is not 200. Otherwise the rendered session uses the stripped values |
| Student.Choose | student/lesspaper.py:162 | picking a radio button sets that card's variable to an offered value and keeps the others |
| Student.TypeAnswer | student/lesspaper.py:165-167 | typing changes only that card's text box |
| Student.PutFacts | student/lesspaper.py:157 | `d[k] = v` keeps keys distinct, maps k to v and keeps every other entry where it was |
| Student.Registry | student/lesspaper.py:157 | the widget dictionary has distinct keys, and each entry maps a card's key to that card |
| Student.RegistryCoversCards | student/lesspaper.py:157 | every rendered card's key is in the dictionary |
| Student.RegistryKeepsLastCard | student/lesspaper.py:157 | the entry for a key holds the last card with that key |
| Student.RegistryOfDistinct | student/lesspaper.py:157 | with distinct keys the dictionary lists every card, in render order |
| Student.DistinctIdsDistinctKeys | student/lesspaper.py:157 | distinct question ids give distinct `str` keys |
| Student.OpenText | student/lesspaper.py:188 | the result is the box's content plus Tk's newline with only whitespace cut from either end; it has no surrounding blanks, and is empty exactly when the box holds only whitespace |
| Student.AnswersOf | student/lesspaper.py:187-188 | one answer per dictionary entry, in order, failing exactly when some key is not an integer |
| Student.RegistryKeysParse | student/lesspaper.py:187 | `int` of each key gives back its card's id |
| Student.CardAnswers | student/lesspaper.py:187 | one answer per dictionary entry: the entry card's id and its widget's value |
| Student.AnswersOfRegistry | student/lesspaper.py:187-188 | converting the keys back never fails, and the answers carry the cards' ids |
| Student.Submit | student/lesspaper.py:183-188 | nothing is sent without confirmation. The body is the MCQ answers followed by the open answers, in dictionary order |
| Student.SubmitOnePerCard | student/lesspaper.py:186-188 | with distinct ids there is exactly one answer per rendered card: the MCQ cards in order with their values, then the open cards with their stripped texts |
| Student.TwoSections | student/lesspaper.py:186-188 | two sections' answers concatenate card by card |
| Student.CardAnswersOfDistinct | student/lesspaper.py:187 | with distinct ids the answers follow the cards one for one |
| Student.SubmittedChoicesOffered | student/lesspaper.py:156-162 | each MCQ answer sent is "Non répondu" or a value its card offers (the option's text, whatever its key; see `Student.ChoiceIgnoresKey`) |
| Student.UntouchedCardCountsAsAnswered | student/lesspaper.py:156 | an untouched MCQ card still sends a non-empty answer, which the results page counts as answered |
| Student.DictOf | student/lesspaper.py:174-175 | the comprehension has exactly the dictionary's keys, each with its entry's value |
| Student.SaveDraft | student/lesspaper.py:173-176 | the draft has a `qcm` and an `open` map, each holding every widget key with its value |
| Student.DraftKeysAreCards | student/lesspaper.py:173-176 | the draft holds no key that is not a rendered card's key |
| Student.SectionAgrees | student/lesspaper.py:173-188 | a section's answers and the draft dictionary of the same cards agree entry by entry |
| Student.DraftAgreesOnMcq | student/lesspaper.py:174-187 | the draft's `qcm` map and the MCQ part of the body agree on every card |
| Student.DraftAgreesOnOpen | student/lesspaper.py:175-188 | the draft's `open` map and the open part of the body agree on every card |
| Text.Strip | student/lesspaper.py:80-81 | the result sits in the input surrounded only by whitespace and has no whitespace at either end |
| Text.StripEmptyIffBlank | prof/profweb/src/pages/CreateExam.jsx:59 | a string strips to "" exactly when it is all whitespace |
| Text.StripIdempotent | student/lesspaper.py:80-81 | stripping twice is stripping once |
| Text.ToUpper | prof/profweb/src/pages/Dashboard.jsx:42 | upper-casing keeps the length, maps each character on its own and leaves no lower-case ASCII letter |
| Decimal.IntToStringInjective | student/lesspaper.py:157 | different ids give different `str` keys |
| Decimal.ParseIntToString | student/lesspaper.py:187 | `int(str(n)) == n` for every integer |
| Decimal.NatToStringInjective | prof/profweb/backend/main.py:193 | different numbers give different labels |

## Left out

- Authentication: JWT tokens, password hashing, the current-user dependency and browser storage are not modelled. The caller's id is a parameter.
- HTTP, JSON and I/O. Fetch and requests calls, FastAPI routing, the workbook bytes, file uploads and their names, and the draft file on disk are not modelled. `JSON.stringify`, `json.loads` and `strftime` are function parameters.
- Store.CreateExam: the source retries forever. The model takes a finite stream of draws and returns `None` when every draw collides, where the source has not returned yet.
- Store.DeleteExam: deleting an exam deletes its questions, and since the Question→Answer relationship (`models.py:51`) has no cascade, SQLAlchemy then sets the question link of every remaining answer that pointed at one of them to NULL. Such answers can exist only in another exam's submissions, because a submission's answers are not checked against its exam. In the source, `GET /api/results/{id}` for that other exam then fails, as `question_id: int` rejects the NULL. The model does not null the link. Those answers keep the deleted question's id, `Routes.ResultsRoute` returns them with it, and a question created later can receive the same id (one more than the largest in use) and match them.
- Store: concurrency, transactions and the database's id allocation are not modelled. Fresh ids are one more than the largest in use.
- Store: the `created_at` default clock is a parameter.
- Text.Strip: only the six ASCII whitespace characters (space, tab, line feed, carriage return, vertical tab, form feed) are stripped. Python `strip` also removes the ASCII separators `\x1c`–`\x1f`, and both Python `strip` and JavaScript `trim` also remove Unicode spaces such as `\xa0`. The model leaves all of these in place.
- Results.ScoreBadge: the pass test `correctOnes / mcqQuestions.length >= 0.5` runs in IEEE double arithmetic in the source. The model states it over exact reals. The two agree whenever both counts are below 2^53, which covers every realistic exam.
- Text.ToUpper: only ASCII letters are upper-cased. JavaScript `toUpperCase` also maps other scripts.
- Decimal.ParseInt reads only an optional minus sign followed by digits. Python `int` also accepts surrounding whitespace, a plus sign and underscores, but the keys it reads here are always `str` of an integer.
- Student.StartExam: a 200 response whose body does not decode is reported by the source as a server error. The model takes the decoded question list as given.
- Student: the image download, the anticheat kiosk mode, the auto-save timer and the message boxes are not modelled. A failed submit post is not modelled either: the client stays open.
- Dashboard.LoadExams: only the statistics reduction is modelled. The per-exam fetches run one after another and are given as a function, and `setExams` and the loading flag are not modelled.
- The React rendering, charts and styles are not modelled, and neither are the Tk widgets beyond the values they hold.
- The exam details page's reload after an add is not modelled, and neither is the exam list fetch.
- Login, navigation, the upload demo frontend and the customtkinter test script hold no logic and are not modelled.
