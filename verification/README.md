# AutoViva core, modelled in Dafny

AutoViva is a college examination web application. Teachers build banks of
multiple-choice questions, by hand or from an uploaded PDF, and compose them
into exams. An administrator assigns subjects to teachers class by class.
Students sign in and sit timed exams in a monitored session that auto-submits
when time runs out or after repeated tab switches.

This project models the application's decision logic as pure Dafny functions
over immutable datatypes. Every collaborator (HTTP request, database query,
timer, DOM event, confirmation dialog, random shuffle) becomes an explicit
input: the value it returned, or how it settled (`Js.Settled`). Toasts and
navigation become output values.

Modules, one per source file, plus two shared ones:

- `Js`: the JavaScript semantics the code relies on.
  - `undefined` is modelled as `Option`, and `a || b` on strings by `Or` and `OrDefault`.
  - The `\s` whitespace class, `trim`, `replace(/\s+/g, ' ')`, ASCII `toLowerCase`, `includes` and `join`.
- `Seqs`: `filter`, `find`, `some`, and first-occurrence de-duplication (the key order of an object built from a list).
- `ExamSession`: the exam-taking state machine.
  - States: `Phase = Taking | InFlight | Closed`.
  - Invariant: `Inv`.
  - One transition function per handler, plus `Step` and `Run` over an `Event` type.
- `ExamCard`, `Login`, `ManualQuestionEntry`, `DocumentUploader`, `QuestionSetup`, `SubjectAssignmentForm`: the pages' handlers.
- `QuestionStore`, `StudentStore`, `TeacherStore`: the client-side stores.
- `SubjectsApi`: the client's reshaping of subject responses, and the create-subject payload.
- `SubjectModel` and `SubjectController`: the server's subject record and its three endpoints, over an in-memory database.

Two behaviours of the exam session follow the code where its own comments suggest otherwise:

- The effect that arms the timer is commented "Auto-submit on time end" (`src/pages/student/components/ExamSession.tsx:45`). Yet for a session opened after its end time it arms no timer and only registers the tab-switch listener, so nothing is submitted. `ExamSession.Start` and `ExamSession.OnDeadline` model that.
- When the end time is still ahead, the effect arms the timer and returns before the listener is registered. So tab switches are never counted in that session (`ExamSession.ArmedSessionIgnoresTabSwitches`).

## Model

| member | source | states |
|---|---|---|
| ExamSession.Start | src/pages/student/components/ExamSession.tsx:25-51 | The presentation order is a permutation of the exam's questions. Every question id starts with answer `null` and status `unanswered`. The timer is armed iff the end time is ahead, and the listener is registered iff it is not. The session invariant holds. |
| ExamSession.Answer | src/pages/student/components/ExamSession.tsx:82-85 | The question on screen gets the option and status `answered`. Every other question keeps its answer and status. The invariant is kept. |
| ExamSession.ToggleFlag | src/pages/student/components/ExamSession.tsx:87-92 | The current question becomes `flagged` iff it was not, and `unanswered` iff it was flagged. Answers are untouched and other statuses kept. |
| ExamSession.GoTo | src/pages/student/components/ExamSession.tsx:18-18 | The current index moves to an existing question while the exam is open, and nothing else in the session changes. |
| ExamSession.LastAnswerWins | src/pages/student/components/ExamSession.tsx:82-85 | Answering twice equals answering once with the second option. |
| ExamSession.AnswerFlagUnflag | src/pages/student/components/ExamSession.tsx:82-92 | Answer, flag, unflag leaves status `unanswered` with the answer still recorded. |
| ExamSession.FlagTwice | src/pages/student/components/ExamSession.tsx:87-92 | Two flag toggles restore an unanswered or flagged question, but turn an answered one into `unanswered`. |
| ExamSession.CorrectAnswerOf | src/pages/student/components/ExamSession.tsx:111 | The correct option of the first question with that id (no earlier question has it), and none exactly when no question has that id. |
| ExamSession.CorrectAnswerAt | src/pages/student/components/ExamSession.tsx:111 | Looking up the id of a question with no earlier namesake gives that question's correct option. |
| ExamSession.GradeKeys | src/pages/student/components/ExamSession.tsx:106-112 | The entries are exactly the keys with a non-null answer, in key order, one each. Each carries its chosen option and is marked correct iff that equals the correct option of the first question with its id. |
| ExamSession.Grade | src/pages/student/components/ExamSession.tsx:106-127 | Every non-null answer is listed exactly once and nothing else. `isCorrect` holds iff the choice equals the correct option. `correct` is the number of answered questions whose choice is correct, and at most the total. `wrong = total - correct` counts unanswered questions too, and `score = correct`. The verdict is pass iff `correct*100 >= pass*total`. |
| ExamSession.GradedCorrectCount | src/pages/student/components/ExamSession.tsx:106-114 | The correct entries are as many as the keys answered correctly. |
| ExamSession.GradedCountsCorrectQuestions | src/pages/student/components/ExamSession.tsx:106-114 | The correct entries are as many as the distinct questions answered correctly. |
| ExamSession.NothingAnsweredScoresZero | src/pages/student/components/ExamSession.tsx:106-124 | With no answer given, nothing is listed, `correct` is 0 and every question counts as wrong. |
| ExamSession.AllCorrectScoresFull | src/pages/student/components/ExamSession.tsx:106-124 | With distinct ids and every question answered correctly, `correct` is the total and `wrong` is 0. |
| ExamSession.VerdictMatchesPercentage | src/pages/student/components/ExamSession.tsx:115-127 | The cross-multiplied verdict agrees with `correct/total*100 >= pass` over the reals. |
| ExamSession.BeginSubmit | src/pages/student/components/ExamSession.tsx:94-105 | Nothing happens while a submission is in flight or after closing. A manual submit with a `null` answer needs confirmation, and an automatic one never asks. Otherwise the graded submission goes in flight. |
| ExamSession.Deliver | src/pages/student/components/ExamSession.tsx:117-136 | On success the session closes with the submission sent and the time-ended or submitted notice. On failure it is back to taking, so a retry is possible. |
| ExamSession.RetryAfterFailure | src/pages/student/components/ExamSession.tsx:133-136 | After a failed delivery, a confirmed resubmission goes in flight again. |
| ExamSession.OnDeadline | src/pages/student/components/ExamSession.tsx:48-50 | The timer firing starts an automatic submit. Without an armed timer nothing happens. |
| ExamSession.OnVisibilityChange | src/pages/student/components/ExamSession.tsx:53-69 | Only a hidden event with the listener registered counts, and it counts once. A count of exactly 2 warns, and any count above 2 forces an automatic submit. |
| ExamSession.ThirdTabSwitchSubmits | src/pages/student/components/ExamSession.tsx:23-66 | In a listening session: the first switch is silent, the second warns, and the third submits automatically. |
| ExamSession.Step | src/pages/student/components/ExamSession.tsx:25-137 | Every event keeps the invariant, the order and the exam. The counter never decreases and is frozen without a listener. A closed session does not change. |
| ExamSession.Run | src/pages/student/components/ExamSession.tsx:25-137 | The invariant holds after any sequence of events. |
| ExamSession.OrderNeverChanges | src/pages/student/components/ExamSession.tsx:25-27 | The order computed at opening stays the same, and a permutation of the questions, after any events. |
| ExamSession.TabSwitchesNeverDecrease | src/pages/student/components/ExamSession.tsx:56-57 | The tab-switch counter never goes down over any events. |
| ExamSession.ArmedSessionIgnoresTabSwitches | src/pages/student/components/ExamSession.tsx:48-69 | When the timer was armed, no sequence of events ever changes the counter. |
| ExamSession.ClosedIsTerminal | src/pages/student/components/ExamSession.tsx:95-132 | After a successful submission no event changes the session, so nothing is submitted twice. |
| ExamCard.BadgeLabel | src/pages/student/components/ExamCard.tsx:37 | `Completed` iff attended, `Active` iff not attended and the window is open, `Upcoming` otherwise. |
| ExamCard.BadgeColour | src/pages/student/components/ExamCard.tsx:30-36 | The colour always matches the label, so it has the same precedence. |
| ExamCard.ShowsStart | src/pages/student/components/ExamCard.tsx:45 | The button shows iff the status is active, the window is open and a start handler exists, so never for an attended exam. |
| Login.VerifyUsername | src/pages/Login.tsx:21-44 | A blank username is refused and the form unchanged. A found user leaves the username screen and enters set-password iff a password must be set. Otherwise the form is unchanged. |
| Login.BlankUsernameNotVerified | src/pages/Login.tsx:24-27 | For an all-whitespace username the outcome does not depend on the server's answer. |
| Login.VerifiedUsernameScreen | src/pages/Login.tsx:32-37 | A verified username shows the set-password screen iff setup is required, and the password screen otherwise. |
| Login.LogIn | src/pages/Login.tsx:46-77 | A user needing setup is sent to set a password. Anyone else gets the home of their role and "Login successful". A failure shows one error. |
| Login.LogInKeepsConsistent | src/pages/Login.tsx:46-77 | From the password screen, logging in keeps the form consistent and moves to set-password iff setup is required. |
| Login.RoleRoutes | src/pages/Login.tsx:61-71 | admin → /admin/teachers, teacher → /teacher, student → /student/exams. |
| Login.SetPassword | src/pages/Login.tsx:79-109 | A mismatch is refused, then a password shorter than 6. Navigation happens iff both checks and both requests succeed: to the teacher home for a teacher, else to the student exams. |
| Login.SetPasswordIgnoresServerRole | src/pages/Login.tsx:92-105 | Only whether the requests succeed matters; the role the server reports is not used. |
| Login.SetPasswordLanding | src/pages/Login.tsx:100-105 | A teacher or student lands where logging in would send them; an admin lands on the student exams, not the admin home. |
| Login.MismatchReportedFirst | src/pages/Login.tsx:82-90 | A mismatching, too-short password is reported only as a mismatch. |
| Login.ResetForm | src/pages/Login.tsx:111-117 | Back to the username screen with the password fields cleared. Username and role are kept. |
| Login.SelectRole | src/pages/Login.tsx:142-145 | Choosing a role always resets the form. |
| ManualQuestionEntry.ChangeOption | src/pages/teacher/components/ManualQuestionEntry.tsx:17-21 | Only option `i` changes, and there are still four options. |
| ManualQuestionEntry.AddQuestion | src/pages/teacher/components/ManualQuestionEntry.tsx:23-46 | Blank text is refused first, then any blank option, and nothing is added. It succeeds iff neither check fails. On success the question is added as typed, its correct index is in 0..3, and the form resets. |
| Js.Trim | src/pages/teacher/components/DocumentUploader.tsx:50 | The result is a slice of the input with no whitespace at either end, and only whitespace is cut away. |
| Js.BlankIffAllSpace | src/pages/teacher/components/ManualQuestionEntry.tsx:24-28 | `!s.trim()` holds iff every character of `s` is whitespace. |
| Js.Collapse | src/pages/teacher/components/DocumentUploader.tsx:49 | The result has no two whitespace characters in a row, its only whitespace is the space, it is empty iff the input is, and it starts with whitespace iff the input does. |
| Js.CollapseKeepsNonSpace | src/pages/teacher/components/DocumentUploader.tsx:49 | Collapsing keeps the non-whitespace characters in order. |
| Js.CollapseRun | src/pages/teacher/components/DocumentUploader.tsx:49 | A non-empty run of whitespace becomes exactly one space. |
| Js.CollapseRunThen | src/pages/teacher/components/DocumentUploader.tsx:49 | A whitespace run before a non-whitespace character (or the end) becomes one space and the rest collapses on its own. |
| Js.CollapseCut | src/pages/teacher/components/DocumentUploader.tsx:49 | Collapsing can be cut after any non-whitespace character, so no run ever merges with text on the other side. |
| Js.CollapseSingleSpaces | src/pages/teacher/components/DocumentUploader.tsx:49 | Text whose only whitespace is single spaces is left unchanged. |
| Js.JoinWords | src/pages/teacher/components/DocumentUploader.tsx:46-48 | Words joined by spaces have no whitespace at either end, single spaces only, and are non-empty when there are words. |
| Js.Includes | src/pages/teacher/exam/QuestionSetup.tsx:26 | `includes` holds iff the needle occurs at some position. |
| DocumentUploader.CheckFile | src/pages/teacher/components/DocumentUploader.tsx:19-31 | A non-PDF is refused before the size is looked at. A PDF is refused iff larger than 2097152 bytes. |
| DocumentUploader.PageText | src/pages/teacher/components/DocumentUploader.tsx:46-50 | No whitespace at either end, no two in a row, no line break, and the same non-whitespace characters as the items joined by spaces. |
| DocumentUploader.PageTextOfWords | src/pages/teacher/components/DocumentUploader.tsx:46-50 | For items that are words, the page text is exactly the items joined by single spaces. |
| DocumentUploader.OneLinePerPage | src/pages/teacher/components/DocumentUploader.tsx:43-52 | The full text has exactly one line break per page and ends with one. |
| DocumentUploader.LinesOfFullText | src/pages/teacher/components/DocumentUploader.tsx:41-52 | Split at its line breaks, the full text has one line per page, and line k is exactly page k's text. |
| DocumentUploader.Extract | src/pages/teacher/components/DocumentUploader.tsx:37-60 | A failed extraction gives "". A parsed one has one line break per page, and its k-th line is exactly page k's text. |
| DocumentUploader.ChooseFile | src/pages/teacher/components/DocumentUploader.tsx:20-34 | A refused file leaves the panel as it was, with the gate's message. An accepted one replaces the file and the text. |
| DocumentUploader.ChooseFileTwice | src/pages/teacher/components/DocumentUploader.tsx:21-34 | Choosing the same file twice leaves the panel as choosing it once. |
| DocumentUploader.PromptText | src/pages/teacher/components/DocumentUploader.tsx:64-90 | Refused iff the text is empty. Otherwise the prompt gets the first min(1000, length) characters. |
| DocumentUploader.FailedParseGeneratesNothing | src/pages/teacher/components/DocumentUploader.tsx:56-67 | After a failed extraction, generation is refused. |
| QuestionStore.AddQuestion | src/store/questionStore.ts:20-37 | Exactly one question is appended, with the fresh id and the given text, options, correct answer, difficulty and subject. The old list is a prefix, and the deployment list is untouched. |
| QuestionStore.UpdateQuestion | src/store/questionStore.ts:39-51 | The patch is merged into exactly the entries with that id. Length and order are kept. |
| QuestionStore.DeleteQuestion | src/store/questionStore.ts:53-64 | A question stays in either list iff its id differs. |
| QuestionStore.DeleteUndoesAdd | src/store/questionStore.ts:20-64 | Adding a question with a new id and deleting that id restores the bank. |
| QuestionStore.DeleteKeepsOrder | src/store/questionStore.ts:56-57 | Deleting from a concatenation deletes from each part, so the survivors keep their order. |
| QuestionStore.UpdateIdempotent | src/store/questionStore.ts:39-51 | Applying the same patch twice is applying it once. |
| QuestionStore.DeleteIdempotent | src/store/questionStore.ts:53-64 | Deleting twice is deleting once. |
| QuestionStore.QuestionsBySubject | src/store/questionStore.ts:66-68 | Exactly the questions of that subject. |
| QuestionStore.AddThenBySubject | src/store/questionStore.ts:20-68 | A new question appears last in its subject's list. |
| QuestionStore.StagingLeavesBank | src/store/questionStore.ts:70-76 | Setting or clearing the deployment list never touches the bank, and clearing empties it. |
| QuestionSetup.Filtered | src/pages/teacher/exam/QuestionSetup.tsx:25-28 | A question is offered iff it is the subject's, its lower-cased text contains the lower-cased query, and it is not picked. |
| QuestionSetup.FilteredDisjointFromPicked | src/pages/teacher/exam/QuestionSetup.tsx:25-28 | No offered question has the id of a picked one. |
| QuestionSetup.EmptyQueryOffersAllUnpicked | src/pages/teacher/exam/QuestionSetup.tsx:25-28 | With an empty search, every unpicked question of the subject is offered. |
| QuestionSetup.TotalMarksAppend | src/pages/teacher/exam/QuestionSetup.tsx:30 | The total of a concatenation is the sum of the totals. |
| QuestionSetup.TotalMarksAtLeastCount | src/pages/teacher/exam/QuestionSetup.tsx:30 | With no negative marks, the total is at least the number of questions, since 0 and NaN count as 1. |
| QuestionSetup.Select | src/pages/teacher/exam/QuestionSetup.tsx:32-34 | The question is appended with one mark, earlier picks are kept, and the total grows by one. |
| QuestionSetup.RemoveAt | src/pages/teacher/exam/QuestionSetup.tsx:36-38 | Exactly the element at the index goes, the rest keep their order, and the total drops by its marks. An index out of range changes nothing. |
| QuestionSetup.UpdateMarks | src/pages/teacher/exam/QuestionSetup.tsx:40-44 | Only that element's marks change, and the total moves by the difference. |
| QuestionSetup.RemoveUndoesSelect | src/pages/teacher/exam/QuestionSetup.tsx:32-38 | Removing the last pick undoes picking it. |
| QuestionSetup.Deploy | src/pages/teacher/exam/QuestionSetup.tsx:46-69 | Refused iff nothing is picked. Otherwise the exam carries exactly the picks, their total marks, and the assignment's class and semester. |
| StudentStore.Normalise | src/store/studentStore.ts:27-36 | The id is `_id` when present and non-empty, else `id`. Missing optional fields become "". |
| StudentStore.FetchStudents | src/store/studentStore.ts:22-42 | One normalised student per record, in order. On failure the list is kept and the error set. |
| StudentStore.FetchReplacesList | src/store/studentStore.ts:22-37 | A successful fetch replaces the list whatever it held, and every fetched student has all text fields. |
| StudentStore.AddStudent | src/store/studentStore.ts:44-55 | Exactly one student is appended, as the server sent it: its `id`, class, semester and name are the reply's, not normalised. On failure the list is kept and the error set. |
| StudentStore.UpdateStudent | src/store/studentStore.ts:57-68 | The reply is merged into exactly the students with that id, and the length is kept. On failure the list is kept. |
| StudentStore.UpdateStudentIdempotent | src/store/studentStore.ts:57-68 | Applying the same update reply twice is applying it once, even when it changes the id. |
| StudentStore.DeleteStudent | src/store/studentStore.ts:70-81 | A student stays iff their id differs. On failure the list is kept. |
| StudentStore.DeleteKeepsOrder | src/store/studentStore.ts:75 | Deletion keeps the survivors in order. |
| StudentStore.DeleteUndoesAdd | src/store/studentStore.ts:44-81 | Adding a student sent with a new `id` and deleting that id restores the list. |
| StudentStore.ByClass | src/store/studentStore.ts:83-85 | Exactly the students of that class. |
| StudentStore.BySemester | src/store/studentStore.ts:87-89 | Exactly the students of that semester. |
| StudentStore.AddedStudentInClass | src/store/studentStore.ts:48-85 | An added student sent with a class shows last in that class. |
| StudentStore.AddedWithoutClassInNone | src/store/studentStore.ts:48-85 | A created student sent without a class is in no class. |
| StudentStore.AddedByMongoIdSurvivesDelete | src/store/studentStore.ts:47-75 | A created student sent with only `_id` is not removed by deleting that id. |
| StudentStore.AddedMatchesFetched | src/store/studentStore.ts:27-50 | A created student sent complete, with `id` and no `_id`, equals what a fetch would make of it. |
| SubjectsApi.DetailOf | src/lib/api/subjects.ts:19-23 | The teacher id is `id` when non-empty, else `_id`. Name and username are passed through. |
| SubjectsApi.AllSubjectsView | src/lib/api/subjects.ts:15-24 | The id is `_id \|\| id`. `teacherDetails` holds, in order, each teacher's detail (`id \|\| _id`, name, username), and is empty when `teachers` is missing. Every other field is kept. |
| SubjectsApi.AllSubjects | src/lib/api/subjects.ts:15-24 | One view per subject, with the length kept. |
| SubjectsApi.TeacherSubjectsView | src/lib/api/subjects.ts:35-44 | `teachers` is rewritten, in order, to `{id: id \|\| _id, name, username}` entries with no `_id`, and is empty when missing. Every other field is kept. |
| SubjectsApi.BareIdsAreLost | src/lib/api/subjects.ts:19-40 | A teacher entry that is a bare id (not looked up by the server) comes out with no id. |
| SubjectsApi.ViewsAgreeOnTeachers | src/lib/api/subjects.ts:18-43 | Both reshapings give the same id, name and username for the same teacher. |
| SubjectsApi.CreateRequest | src/lib/api/subjects.ts:48-57 | The payload carries code, name, department and semester as given, and `isLab` only when set. |
| SubjectModel.Build | backend/src/models/Subject.js:3-42 | A document exists iff code, name and department are non-empty and semester is given. `isLab` defaults to false and both teacher lists start empty. |
| SubjectController.CreateSubject | backend/src/controllers/subjectController.js:4-28 | A taken code gives 400 with nothing stored, and a schema failure gives 500. 201 iff neither, and then the new subject has empty teacher lists and the `isLab` default. |
| SubjectController.CreateKeepsCodesUnique | backend/src/controllers/subjectController.js:7-10 | Creation keeps codes unique across subjects. |
| SubjectController.AssignTeacher | backend/src/controllers/subjectController.js:55-102 | 400 for missing ids, then 404 for the subject, then 404 for the teacher, then 400 for a duplicate, each with the database unchanged. When all four checks pass the answer is 200: both lists grow by one, the names fall back to the teacher record, and nothing else changes. |
| SubjectController.RemoveTeacher | backend/src/controllers/subjectController.js:105-134 | 400 for missing ids, then 404 for the subject, with no change. Otherwise an entry stays in either list iff it is not that teacher's. An absent teacher is no error. |
| SubjectController.TeacherChangesKeepCodesUnique | backend/src/controllers/subjectController.js:83-128 | Assigning and removing teachers keep codes unique. |
| SubjectController.FilterKeepsPaired | backend/src/controllers/subjectController.js:123-126 | Filtering both lists by one teacher keeps them position by position in step. |
| SubjectController.TeacherChangesKeepAligned | backend/src/controllers/subjectController.js:83-126 | `teachers` and `teacherDetails` stay paired through every assign and remove. |
| SubjectController.RemoveIdempotent | backend/src/controllers/subjectController.js:120-129 | Removing a teacher twice is removing it once. |
| SubjectController.DropAfterAppend | backend/src/controllers/subjectController.js:83-126 | Dropping a teacher just appended to a paired subject restores it. |
| SubjectController.RemoveUndoesAssign | backend/src/controllers/subjectController.js:55-134 | A successful assign followed by a remove restores the database. |
| TeacherStore.Pair | src/store/teacherStore.ts:54-66 | The id is `subjectId-teacherId`. The class defaults to "A" and `isLab` to false. The subject's fields are copied. |
| TeacherStore.PairsOfAt | src/store/teacherStore.ts:53-68 | The j-th assignment of a subject is built from its j-th teacher entry, so there is one per teacher, in order. |
| TeacherStore.Flatten | src/store/teacherStore.ts:50-69 | As many assignments as teacher entries over all subjects. |
| TeacherStore.FlattenAppend | src/store/teacherStore.ts:52-69 | Flattening follows the subject order. |
| TeacherStore.FlattenPosition | src/store/teacherStore.ts:52-69 | The j-th teacher of the i-th subject yields the assignment right after those of the earlier subjects. |
| TeacherStore.FetchSubjects | src/store/teacherStore.ts:44-80 | On success the subjects are the reshaped reply and the assignments are its flattening, one per teacher entry; no error. On failure only the error is set. |
| TeacherStore.IsSubjectAssigned | src/store/teacherStore.ts:303-311 | Holds iff some assignment matches code, department and class ignoring case, and the semester exactly. |
| TeacherStore.IsSubjectAssignedIgnoresCase | src/store/teacherStore.ts:306-309 | Lower-casing the arguments never changes the answer. |
| TeacherStore.AssignSubject | src/store/teacherStore.ts:171-250 | An unknown teacher gives "Teacher not found". A known subject whose class is taken (exact match) is a duplicate, and either way nothing is appended. Success comes exactly when the checks and requests succeed, appending one assignment with the teacher's name and username. A subject is added only when none matched. |
| TeacherStore.AssignedIsFound | src/store/teacherStore.ts:303-311 | After a successful assignment the lookup reports the class as taken. |
| TeacherStore.SecondAssignRefused | src/store/teacherStore.ts:181-205 | Asking for the same assignment again is refused as a duplicate. |
| TeacherStore.DeleteTeacher | src/store/teacherStore.ts:155-169 | A teacher stays iff their id differs, and an assignment stays iff it is not theirs. On failure only the error is set. |
| TeacherStore.DeleteTeacherCascades | src/store/teacherStore.ts:159-162 | After deletion, the teacher has no assignments. |
| TeacherStore.DeleteTeacherSparesOthers | src/store/teacherStore.ts:159-162 | Every other teacher's assignments, names included, are unchanged. |
| TeacherStore.DeleteTeacherKeepsOrder | src/store/teacherStore.ts:159-162 | Deleting from lists split in two is deleting from each part, so teachers and assignments keep their order. |
| TeacherStore.UpdateTeacher | src/store/teacherStore.ts:140-153 | The reply is merged into exactly the teachers with that id. The length is kept and the assignments are untouched. |
| TeacherStore.UpdateTeacherIdempotent | src/store/teacherStore.ts:140-153 | Applying the same update reply twice is applying it once. |
| TeacherStore.RemoveSubjectAssignment | src/store/teacherStore.ts:252-285 | An unknown id gives "Assignment not found", and an assignment whose subject is not listed gives "Subject not found". Otherwise the server's answer decides: on consent exactly that assignment id goes, and on refusal only the error is set. |
| TeacherStore.RemoveTwiceRefused | src/store/teacherStore.ts:252-258 | After a successful removal, removing the same id again is refused with "Assignment not found". |
| TeacherStore.WithNames | src/store/teacherStore.ts:292-299 | Only the names change. The name is the record's when it has a non-empty one, else the stored name when non-empty, else "Unknown Teacher"; the username falls back the same way to "". |
| TeacherStore.WithNamesIdempotent | src/store/teacherStore.ts:292-299 | Filling in the names twice is filling them in once. |
| TeacherStore.GetTeacherAssignments | src/store/teacherStore.ts:287-301 | Exactly that teacher's assignments, in order, each with its names filled in by the fallback chain. |
| TeacherStore.UnknownTeacherFallback | src/store/teacherStore.ts:297 | With no record and no stored name, the teacher shows as "Unknown Teacher". |
| SubjectAssignmentForm.Submit | src/pages/admin/components/SubjectAssignmentForm.tsx:49-166 | An unknown teacher is refused first. For a new assignment, a subject the teacher already has is refused, then a taken class. Past these checks the store's assignment decides: the store is its result, the form closes iff it succeeded, and its error is shown otherwise. A closed form appended exactly one assignment. |
| SubjectAssignmentForm.EditingGoesStraightToStore | src/pages/admin/components/SubjectAssignmentForm.tsx:132-159 | When editing, both duplicate checks are skipped. |
| SubjectAssignmentForm.FormCheckCoversStoreCheck | src/pages/admin/components/SubjectAssignmentForm.tsx:139-151 | A new assignment that passes the form's case-insensitive check never hits the store's exact duplicate check. |
| SubjectAssignmentForm.UnchangedEditRefused | src/pages/admin/components/SubjectAssignmentForm.tsx:154-164 | Saving an edit whose class is already taken is refused by the store, and the admin sees its duplicate message. |

## Left out

- Network, database and storage I/O (axios, Mongoose queries and `save`, localStorage tokens, the Gemini request): each call is an input saying how it settled.
- The shuffle `sort(() => Math.random() - 0.5)`: the order is any permutation, passed to `ExamSession.Start`.
- Timers, fullscreen, the DOM listener and React closures.
  - Events are transitions over the current state.
  - The timer's callback in the code captures the first-render `handleSubmit`; that stale closure is not modelled.
- The `percentage` float and the `submittedAt` timestamp in the submission. The verdict is stated by cross-multiplication, and `ExamSession.VerdictMatchesPercentage` relates it to the real percentage, not to IEEE rounding.
- ExamSession.Start: requires a non-empty exam. The page reads the current question on render and cannot show an empty exam.
- ExamSession.GoTo: the navigator buttons are elided in `ExamSession.tsx`. The model moves the cursor to any existing question while the exam is open, and ignores other indexes.
- Object key order: answers are graded in first-occurrence order of the question ids. JavaScript lists integer-like keys first; that is not modelled.
- `toLowerCase` is ASCII only. String lengths count Dafny characters, not UTF-16 units.
- `parseInt` on form text: marks, duration and pass percentage are `Js.Number` values, and the assignment form's semester is a natural number from its select.
- PDF parsing (an input: the text items per page, or failure) and the parsing of the model's JSON reply.
- Login.LogIn: a rejection with an empty message is shown as the default "Invalid username or password". The code would show the empty message.
- QuestionSetup.UpdateMarks: requires an index in range. The code throws on any other index, and the page only passes indexes of rendered rows.
- QuestionSetup.Deploy: the deploy request is commented out in the source. The model stops at the exam data, and the success toast and navigation are left out.
- SubjectController.CreateSubject: a request with no code is taken to match no stored subject. That part of the query belongs to the database library. Malformed ids (Mongoose cast errors, status 500) and the populated response of `assignTeacher` are not modelled.
- TeacherStore: `fetchTeachers`, `addTeacher` and `getTeacherSubjects` are not modelled. They only store a server reply, and nothing in the modelled flows reads what they add.
- Toast side effects: they are outputs. The `console.error` calls are dropped.
- `src/lib/api/students.ts` and the pure UI files are not part of this model.
