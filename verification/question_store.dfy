/** The question bank (`questionStore`): the teacher's multiple-choice
    questions and the list staged for deployment. The `Date.now()` id of a new
    question is a parameter, and the success/failure toasts are left out. */
module QuestionStore {
  import opened Js
  import opened Seqs

  datatype Difficulty = Easy | Medium | Hard

  datatype Question = Question(
    id: string,
    text: string,
    options: seq<string>,
    correctAnswer: int,
    difficulty: Difficulty,
    subjectId: string)

  /** A question before the store gives it an id. */
  datatype QuestionData = QuestionData(
    text: string,
    options: seq<string>,
    correctAnswer: int,
    difficulty: Difficulty,
    subjectId: string)

  /** A `Partial<Question>`: the fields present in an update. */
  datatype QuestionPatch = QuestionPatch(
    id: Option<string>,
    text: Option<string>,
    options: Option<seq<string>>,
    correctAnswer: Option<int>,
    difficulty: Option<Difficulty>,
    subjectId: Option<string>)

  datatype Bank = Bank(questions: seq<Question>, toDeploy: seq<Question>)

  function WithId(id: string, d: QuestionData): Question {
    Question(id, d.text, d.options, d.correctAnswer, d.difficulty, d.subjectId)
  }

  /** `{ ...q, ...patch }`: the fields the patch carries win. */
  function Merge(q: Question, p: QuestionPatch): Question {
    Question(
      p.id.GetOr(q.id), p.text.GetOr(q.text), p.options.GetOr(q.options),
      p.correctAnswer.GetOr(q.correctAnswer), p.difficulty.GetOr(q.difficulty),
      p.subjectId.GetOr(q.subjectId))
  }

  /** `addQuestion`: appends one question carrying the fresh id and the given
      fields; everything already stored stays in place. */
  function AddQuestion(b: Bank, data: QuestionData, freshId: string): (r: Bank)
    ensures |r.questions| == |b.questions| + 1
    ensures r.questions[..|b.questions|] == b.questions
    ensures r.questions[|b.questions|].id == freshId
    ensures r.questions[|b.questions|].text == data.text
    ensures r.questions[|b.questions|].options == data.options
    ensures r.questions[|b.questions|].correctAnswer == data.correctAnswer
    ensures r.questions[|b.questions|].subjectId == data.subjectId
    ensures r.questions[|b.questions|].difficulty == data.difficulty
    ensures r.toDeploy == b.toDeploy
  {
    b.(questions := b.questions + [WithId(freshId, data)])
  }

  /** `updateQuestion`: merges the patch into every question with that id;
      length, order and every other question are kept. The deployment list
      is not touched, so it keeps the old copy. */
  function UpdateQuestion(b: Bank, id: string, p: QuestionPatch): (r: Bank)
    ensures |r.questions| == |b.questions|
    ensures forall i :: 0 <= i < |b.questions| && b.questions[i].id != id ==>
              r.questions[i] == b.questions[i]
    ensures forall i :: 0 <= i < |b.questions| && b.questions[i].id == id ==>
              r.questions[i] == Merge(b.questions[i], p)
    ensures r.toDeploy == b.toDeploy
  {
    b.(questions := seq(|b.questions|, i requires 0 <= i < |b.questions| =>
                          if b.questions[i].id == id then Merge(b.questions[i], p) else b.questions[i]))
  }

  /** `deleteQuestion`: drops the id from both lists. */
  function DeleteQuestion(b: Bank, id: string): (r: Bank)
    ensures forall q :: q in r.questions <==> q in b.questions && q.id != id
    ensures forall q :: q in r.toDeploy <==> q in b.toDeploy && q.id != id
  {
    Bank(Filter((q: Question) => q.id != id, b.questions),
         Filter((q: Question) => q.id != id, b.toDeploy))
  }

  /** `getQuestionsBySubject`: exactly the questions of that subject. */
  function QuestionsBySubject(b: Bank, subjectId: string): (r: seq<Question>)
    ensures forall q :: q in r <==> q in b.questions && q.subjectId == subjectId
  {
    Filter((q: Question) => q.subjectId == subjectId, b.questions)
  }

  /** `setQuestionsToDeploy`. */
  function SetQuestionsToDeploy(b: Bank, qs: seq<Question>): Bank {
    b.(toDeploy := qs)
  }

  /** `clearQuestionsToDeploy`. */
  function ClearQuestionsToDeploy(b: Bank): Bank {
    b.(toDeploy := [])
  }

  /** Adding a question whose id is new and then deleting that id gives back
      the bank as it was. */
  lemma DeleteUndoesAdd(b: Bank, data: QuestionData, freshId: string)
    requires forall i :: 0 <= i < |b.questions| ==> b.questions[i].id != freshId
    requires forall i :: 0 <= i < |b.toDeploy| ==> b.toDeploy[i].id != freshId
    ensures DeleteQuestion(AddQuestion(b, data, freshId), freshId) == b
  {
    var keep := (q: Question) => q.id != freshId;
    FilterAppend(keep, b.questions, [WithId(freshId, data)]);
    FilterAllKept(keep, b.questions);
    FilterAllKept(keep, b.toDeploy);
  }

  /** Deleting keeps the survivors in their order: deleting from two halves
      of the list is deleting from each half. */
  lemma DeleteKeepsOrder(a: seq<Question>, c: seq<Question>, id: string)
    ensures DeleteQuestion(Bank(a + c, []), id).questions
         == DeleteQuestion(Bank(a, []), id).questions + DeleteQuestion(Bank(c, []), id).questions
  {
    FilterAppend((q: Question) => q.id != id, a, c);
  }

  /** Deleting the same id twice is deleting it once. */
  lemma DeleteIdempotent(b: Bank, id: string)
    ensures DeleteQuestion(DeleteQuestion(b, id), id) == DeleteQuestion(b, id)
  {
    FilterIdempotent((q: Question) => q.id != id, b.questions);
    FilterIdempotent((q: Question) => q.id != id, b.toDeploy);
  }

  /** Applying the same update twice is applying it once. */
  lemma UpdateIdempotent(b: Bank, id: string, p: QuestionPatch)
    ensures UpdateQuestion(UpdateQuestion(b, id, p), id, p) == UpdateQuestion(b, id, p)
  {
  }

  /** A new question shows up in its subject's list, after the ones already
      there. */
  lemma AddThenBySubject(b: Bank, data: QuestionData, freshId: string)
    ensures QuestionsBySubject(AddQuestion(b, data, freshId), data.subjectId)
         == QuestionsBySubject(b, data.subjectId) + [WithId(freshId, data)]
  {
    FilterAppend((q: Question) => q.subjectId == data.subjectId, b.questions, [WithId(freshId, data)]);
  }

  /** Staging and clearing a deployment never touches the bank itself, and
      clearing always leaves nothing staged. */
  lemma StagingLeavesBank(b: Bank, qs: seq<Question>)
    ensures SetQuestionsToDeploy(b, qs).questions == b.questions
    ensures SetQuestionsToDeploy(b, qs).toDeploy == qs
    ensures ClearQuestionsToDeploy(SetQuestionsToDeploy(b, qs)) == ClearQuestionsToDeploy(b)
    ensures ClearQuestionsToDeploy(b).toDeploy == []
  {
  }
}
