/** Composing an exam from the bank (`QuestionSetup`): searching the
    subject's questions, picking them, setting their marks, and the check
    before deployment. */
module QuestionSetup {
  import opened Js
  import opened Seqs
  import QuestionStore

  type Question = QuestionStore.Question

  /** A picked question: a copy of the bank's question with its marks. The
      marks come from a number input through `parseInt`, so they may be
      `NaN`. */
  datatype Picked = Picked(question: Question, marks: Number)

  /** `q.marks || 1`: zero and `NaN` are falsy and count as one mark. */
  function EffectiveMarks(m: Number): int {
    match m
    case Num(n) => if n == 0 then 1 else n
    case NaN => 1
  }

  /** The subject's questions: none without a subject id in the route. */
  function SubjectQuestions(b: QuestionStore.Bank, subjectId: Option<string>): seq<Question> {
    if Truthy(subjectId) then QuestionStore.QuestionsBySubject(b, subjectId.value) else []
  }

  predicate IsPicked(picked: seq<Picked>, id: string) {
    exists j :: 0 <= j < |picked| && picked[j].question.id == id
  }

  /** `filteredQuestions`: the subject's questions whose lower-cased text
      contains the lower-cased query and that are not picked yet. */
  function Filtered(subjectQs: seq<Question>, query: string, picked: seq<Picked>): (r: seq<Question>)
    ensures forall q :: q in r <==>
              q in subjectQs && Includes(Lower(q.text), Lower(query)) && !IsPicked(picked, q.id)
  {
    Filter((q: Question) =>
             Includes(Lower(q.text), Lower(query))
             && !Any((p: Picked) => p.question.id == q.id, picked),
           subjectQs)
  }

  /** Nothing on offer is already picked. */
  lemma FilteredDisjointFromPicked(subjectQs: seq<Question>, query: string, picked: seq<Picked>)
    ensures forall i, j :: 0 <= i < |Filtered(subjectQs, query, picked)| && 0 <= j < |picked| ==>
              Filtered(subjectQs, query, picked)[i].id != picked[j].question.id
  {
    var r := Filtered(subjectQs, query, picked);
    forall i, j | 0 <= i < |r| && 0 <= j < |picked| ensures r[i].id != picked[j].question.id {
      assert r[i] in r;
    }
  }

  /** An empty query offers every question that is not picked yet. */
  lemma EmptyQueryOffersAllUnpicked(subjectQs: seq<Question>, picked: seq<Picked>)
    ensures forall q :: q in Filtered(subjectQs, "", picked) <==> q in subjectQs && !IsPicked(picked, q.id)
  {
    forall q: Question ensures Includes(Lower(q.text), Lower("")) {
      assert OccursAt(Lower(q.text), Lower(""), 0);
    }
  }

  /** `totalMarks`: the marks of the picked questions, added from the left. */
  function TotalMarks(picked: seq<Picked>): int
  {
    if picked == [] then 0
    else TotalMarks(picked[..|picked| - 1]) + EffectiveMarks(picked[|picked| - 1].marks)
  }

  lemma {:induction false} TotalMarksAppend(a: seq<Picked>, b: seq<Picked>)
    ensures TotalMarks(a + b) == TotalMarks(a) + TotalMarks(b)
    decreases |b|
  {
    if b == [] {
      assert a + b == a;
    } else {
      assert (a + b)[..|a + b| - 1] == a + b[..|b| - 1];
      TotalMarksAppend(a, b[..|b| - 1]);
    }
  }

  /** With no negative marks typed in, every picked question contributes at
      least one mark. */
  lemma {:induction false} TotalMarksAtLeastCount(picked: seq<Picked>)
    requires forall j :: 0 <= j < |picked| ==> picked[j].marks.NaN? || picked[j].marks.n >= 0
    ensures TotalMarks(picked) >= |picked|
  {
    if picked != [] {
      TotalMarksAtLeastCount(picked[..|picked| - 1]);
    }
  }

  /** `handleSelectQuestion`: appends a copy with one mark. */
  function Select(picked: seq<Picked>, q: Question): (r: seq<Picked>)
    ensures |r| == |picked| + 1 && r[..|picked|] == picked
    ensures r[|picked|] == Picked(q, Num(1))
    ensures TotalMarks(r) == TotalMarks(picked) + 1
  {
    picked + [Picked(q, Num(1))]
  }

  /** `handleRemoveQuestion`: drops the entry at `index` (nothing when there
      is none) and keeps the others in order. */
  function RemoveAt(picked: seq<Picked>, index: nat): (r: seq<Picked>)
    ensures index >= |picked| ==> r == picked
    ensures index < |picked| ==>
              |r| == |picked| - 1
              && (forall j :: 0 <= j < index ==> r[j] == picked[j])
              && (forall j :: index <= j < |r| ==> r[j] == picked[j + 1])
    ensures index < |picked| ==> TotalMarks(r) == TotalMarks(picked) - EffectiveMarks(picked[index].marks)
  {
    if index < |picked| then
      var r := picked[..index] + picked[index + 1..];
      assert picked == picked[..index] + [picked[index]] + picked[index + 1..];
      TotalMarksAppend(picked[..index] + [picked[index]], picked[index + 1..]);
      TotalMarksAppend(picked[..index], [picked[index]]);
      TotalMarksAppend(picked[..index], picked[index + 1..]);
      r
    else picked
  }

  /** `handleUpdateMarks`: only the entry at `index` gets the new marks, and
      the total moves by the difference. */
  function UpdateMarks(picked: seq<Picked>, index: nat, marks: Number): (r: seq<Picked>)
    requires index < |picked|
    ensures |r| == |picked| && r[index] == picked[index].(marks := marks)
    ensures forall j :: 0 <= j < |picked| && j != index ==> r[j] == picked[j]
    ensures TotalMarks(r) == TotalMarks(picked) - EffectiveMarks(picked[index].marks) + EffectiveMarks(marks)
  {
    var r := picked[index := picked[index].(marks := marks)];
    assert picked == picked[..index] + [picked[index]] + picked[index + 1..];
    assert r == picked[..index] + [r[index]] + picked[index + 1..];
    TotalMarksAppend(picked[..index] + [picked[index]], picked[index + 1..]);
    TotalMarksAppend(picked[..index], [picked[index]]);
    TotalMarksAppend(picked[..index] + [r[index]], picked[index + 1..]);
    TotalMarksAppend(picked[..index], [r[index]]);
    r
  }

  /** Picking a question and then removing it again restores the list. */
  lemma RemoveUndoesSelect(picked: seq<Picked>, q: Question)
    ensures RemoveAt(Select(picked, q), |picked|) == picked
  {
  }

  /** The assignment the page is opened for. */
  datatype Assignment = Assignment(className: string, semester: int)

  /** The fields of the deployment form, as read. */
  datatype ExamForm = ExamForm(
    title: string,
    description: string,
    durationMinutes: Number,
    passPercentage: Number,
    startTime: string,
    endTime: string)

  datatype ExamDraft = ExamDraft(
    title: string,
    description: string,
    durationMinutes: Number,
    passPercentage: Number,
    startTime: string,
    endTime: string,
    subjectId: string,
    teacherId: string,
    questions: seq<Picked>,
    totalMarks: int,
    className: string,
    semester: int,
    isActive: bool)

  /** `handleDeployExam`: refused with nothing picked; otherwise the exam
      carries exactly the picked questions and their total marks, for the
      assignment's class and semester. */
  function Deploy(picked: seq<Picked>, form: ExamForm, a: Assignment, subjectId: string, teacherId: string)
    : (r: Settled<ExamDraft>)
    ensures r.Rejected? <==> picked == []
    ensures r.Rejected? ==> r.message == "Please select at least one question"
    ensures r.Resolved? ==>
              r.value.questions == picked && r.value.totalMarks == TotalMarks(picked)
              && r.value.className == a.className && r.value.semester == a.semester
              && r.value.subjectId == subjectId && r.value.teacherId == teacherId && r.value.isActive
  {
    if picked == [] then Rejected("Please select at least one question")
    else Resolved(ExamDraft(form.title, form.description, form.durationMinutes, form.passPercentage,
                            form.startTime, form.endTime, subjectId, teacherId, picked,
                            TotalMarks(picked), a.className, a.semester, true))
  }
}
