/** One student's attempt at one exam (`ExamSession`), as an explicit state
    machine. The browser's timer, the `visibilitychange` listener, the
    learner's clicks, the `window.confirm` answer and the outcome of
    `submitExam` all arrive as inputs to transition functions. */
module ExamSession {
  import opened Js
  import opened Seqs
  import QuestionStore

  type Question = QuestionStore.Question

  /** Two hidden-tab events are tolerated; the second one warns. */
  const MaxTabSwitches: nat := 2

  /** The exam as the session sees it; `endTime` and the clock readings are in
      the same unit (milliseconds since the epoch). */
  datatype Exam = Exam(id: string, questions: seq<Question>, endTime: int, passPercentage: int)

  /** The signed-in user, read from the authentication store. */
  datatype Student = Student(id: string, name: string)

  datatype Status = Unanswered | Answered | Flagged

  datatype GradedAnswer = GradedAnswer(questionId: string, selectedOption: int, isCorrect: bool)

  datatype Verdict = Pass | Fail

  /** The record handed to `submitExam`. The submission timestamp is left
      out. */
  datatype Submission = Submission(
    examId: string,
    studentId: string,
    studentName: string,
    answers: seq<GradedAnswer>,
    totalQuestions: nat,
    correctAnswers: nat,
    wrongAnswers: int,
    score: nat,
    status: Verdict)

  /** `Taking`: `isSubmitting` is false. `InFlight`: `submitExam` has been
      called and not yet answered (`isSubmitting` is true). `Closed`: the
      submission was delivered and `onClose` unmounted the session, which
      clears its timer and listener. */
  datatype Phase =
    | Taking
    | InFlight(pending: Submission, auto: bool)
    | Closed(delivered: Submission)

  datatype Session = Session(
    exam: Exam,
    student: Student,
    order: seq<Question>,
    current: nat,
    answers: map<string, Option<int>>,
    status: map<string, Status>,
    tabSwitches: nat,
    timerArmed: bool,
    listening: bool,
    phase: Phase)

  /** The toasts the session raises. */
  datatype Notice = TabWarning | TabForcedSubmit | TimeEnded | SubmittedOk | SubmitFailed

  function Message(n: Notice): string {
    match n
    case TabWarning => "Warning: One more tab switch will submit your exam!"
    case TabForcedSubmit => "Exam submitted due to multiple tab switches!"
    case TimeEnded => "Exam time ended. Your answers have been submitted."
    case SubmittedOk => "Exam submitted successfully"
    case SubmitFailed => "Failed to submit exam"
  }

  datatype Transition = Transition(next: Session, notices: seq<Notice>)

  function Ids(qs: seq<Question>): (r: seq<string>)
    ensures |r| == |qs|
    ensures forall i :: 0 <= i < |qs| ==> r[i] == qs[i].id
  {
    seq(|qs|, i requires 0 <= i < |qs| => qs[i].id)
  }

  function IdSet(qs: seq<Question>): set<string> {
    set i | 0 <= i < |qs| :: qs[i].id
  }

  /** The keys of the `answers` object in enumeration order: each question id
      once, where it first appears in the presentation order. */
  function Keys(order: seq<Question>): (r: seq<string>)
    ensures |r| <= |order|
    ensures forall i :: 0 <= i < |r| ==> r[i] in IdSet(order)
    ensures forall k :: k in IdSet(order) ==> k in r
    ensures NoDuplicates(r)
  {
    var ids := Ids(order);
    var r := Distinct(ids);
    assert forall i :: 0 <= i < |r| ==> r[i] in IdSet(order) by {
      forall i | 0 <= i < |r| ensures r[i] in IdSet(order) {
        var j :| 0 <= j < |ids| && ids[j] == r[i];
        assert order[j].id == r[i];
      }
    }
    assert forall k :: k in IdSet(order) ==> k in r by {
      forall k | k in IdSet(order) ensures k in r {
        var j :| 0 <= j < |order| && order[j].id == k;
        assert ids[j] == k;
      }
    }
    r
  }

  /** What every reachable session satisfies. The presentation order stays a
      permutation of the exam's questions, every question id has an answer
      slot and a status, and the deadline timer and the visibility listener
      are never both live (the effect returns before registering the
      listener whenever it arms the timer). */
  predicate Inv(s: Session) {
    && |s.exam.questions| > 0
    && multiset(s.order) == multiset(s.exam.questions)
    && s.current < |s.order|
    && s.answers.Keys == IdSet(s.order)
    && s.status.Keys == IdSet(s.order)
    && !(s.timerArmed && s.listening)
    && (s.phase.Closed? ==> !s.timerArmed && !s.listening)
  }

  lemma IdSetOfPermutation(a: seq<Question>, b: seq<Question>)
    requires multiset(a) == multiset(b)
    ensures IdSet(a) == IdSet(b)
  {
    forall k | k in IdSet(a) ensures k in IdSet(b) {
      var i :| 0 <= i < |a| && a[i].id == k;
      assert a[i] in multiset(b);
      var j :| 0 <= j < |b| && b[j] == a[i];
    }
    forall k | k in IdSet(b) ensures k in IdSet(a) {
      var i :| 0 <= i < |b| && b[i].id == k;
      assert b[i] in multiset(a);
      var j :| 0 <= j < |a| && a[j] == b[i];
    }
  }

  /** Opening the session. `order` is the shuffled copy of the exam's
      questions (the shuffle itself is random and is an input here). Every
      answer starts `null` and every status `unanswered`. The effect arms the
      deadline timer when the end is still ahead and then returns early, so
      the visibility listener is registered only when the end has already
      passed, and then no timer is armed. */
  function Start(exam: Exam, student: Student, order: seq<Question>, now: int): (s: Session)
    requires |exam.questions| > 0
    requires multiset(order) == multiset(exam.questions)
    ensures Inv(s)
    ensures s.order == order && s.exam == exam
    ensures s.current == 0 && s.tabSwitches == 0 && s.phase == Taking
    ensures forall i :: 0 <= i < |exam.questions| ==>
              exam.questions[i].id in s.answers && s.answers[exam.questions[i].id] == None
              && s.status[exam.questions[i].id] == Unanswered
    ensures forall k :: k in s.answers ==> s.answers[k] == None && s.status[k] == Unanswered
    ensures s.timerArmed <==> exam.endTime - now > 0
    ensures s.listening <==> exam.endTime - now <= 0
  {
    IdSetOfPermutation(order, exam.questions);
    assert |order| == |multiset(order)| == |exam.questions|;
    var ids := IdSet(order);
    var armed := exam.endTime - now > 0;
    var s := Session(exam, student, order, 0,
                     map k | k in ids :: None, map k | k in ids :: Unanswered,
                     0, armed, !armed, Taking);
    assert forall i :: 0 <= i < |exam.questions| ==> exam.questions[i].id in IdSet(exam.questions);
    s
  }

  /** The question on screen. */
  function Current(s: Session): (q: Question)
    requires Inv(s)
    ensures q.id in s.answers && q.id in s.status
  {
    assert s.order[s.current].id in IdSet(s.order);
    s.order[s.current]
  }

  /** Moving the cursor of the question navigator to question `i`. */
  function GoTo(s: Session, i: nat): (t: Session)
    requires Inv(s)
    ensures Inv(t) && t.(current := s.current) == s
    ensures t.current == if i < |s.order| && !s.phase.Closed? then i else s.current
  {
    if i < |s.order| && !s.phase.Closed? then s.(current := i) else s
  }

  /** `handleAnswer`: records the option for the question on screen and marks
      it answered; no other question changes. */
  function Answer(s: Session, option: int): (t: Session)
    requires Inv(s)
    ensures Inv(t)
    ensures t.order == s.order && t.current == s.current && t.tabSwitches == s.tabSwitches
    ensures s.phase.Closed? ==> t == s
    ensures !s.phase.Closed? ==>
              t.answers[Current(s).id] == Some(option) && t.status[Current(s).id] == Answered
    ensures forall k :: k in s.answers && k != Current(s).id ==> t.answers[k] == s.answers[k]
    ensures forall k :: k in s.status && k != Current(s).id ==> t.status[k] == s.status[k]
    ensures t.phase == s.phase && t.listening == s.listening && t.timerArmed == s.timerArmed
  {
    var id := s.order[s.current].id;
    assert id in IdSet(s.order);
    if s.phase.Closed? then s
    else s.(answers := s.answers[id := Some(option)], status := s.status[id := Answered])
  }

  /** `handleFlagQuestion`: a flagged question becomes unanswered, any other
      becomes flagged. The recorded answer is not touched. */
  function ToggleFlag(s: Session): (t: Session)
    requires Inv(s)
    ensures Inv(t)
    ensures t.order == s.order && t.current == s.current && t.tabSwitches == s.tabSwitches
    ensures s.phase.Closed? ==> t == s
    ensures !s.phase.Closed? ==>
              (t.status[Current(s).id] == Flagged <==> s.status[Current(s).id] != Flagged)
    ensures !s.phase.Closed? ==>
              (t.status[Current(s).id] == Unanswered <==> s.status[Current(s).id] == Flagged)
    ensures forall k :: k in s.status && k != Current(s).id ==> t.status[k] == s.status[k]
    ensures t.answers == s.answers
    ensures t.phase == s.phase && t.listening == s.listening && t.timerArmed == s.timerArmed
  {
    var id := s.order[s.current].id;
    assert id in IdSet(s.order);
    if s.phase.Closed? then s
    else s.(status := s.status[id := if s.status[id] == Flagged then Unanswered else Flagged])
  }

  /** `Object.values(answers).filter(a => a === null).length`. */
  function UnansweredCount(s: Session): nat
    requires Inv(s)
  {
    Count((k: string) => k in s.answers && s.answers[k].None?, Keys(s.order))
  }

  /** `exam.questions.find(q => q.id === id)?.correct_answer`: the correct
      option of the first question with that id. */
  function CorrectAnswerOf(qs: seq<Question>, id: string): (r: Option<int>)
    ensures r.Some? ==> exists i :: 0 <= i < |qs| && qs[i].id == id && qs[i].correctAnswer == r.value
                                    && forall k :: 0 <= k < i ==> qs[k].id != id
    ensures r.None? <==> id !in IdSet(qs)
  {
    match Find((q: Question) => q.id == id, qs)
    case None => None
    case Some(q) => Some(q.correctAnswer)
  }

  /** The lookup finds the question a graded id came from: the i-th question,
      when no earlier one has its id. */
  lemma CorrectAnswerAt(qs: seq<Question>, i: nat)
    requires i < |qs| && forall k :: 0 <= k < i ==> qs[k].id != qs[i].id
    ensures CorrectAnswerOf(qs, qs[i].id) == Some(qs[i].correctAnswer)
  {
    assert qs[i].id in IdSet(qs);
    var r := CorrectAnswerOf(qs, qs[i].id);
    var j :| 0 <= j < |qs| && qs[j].id == qs[i].id && qs[j].correctAnswer == r.value
             && forall k :: 0 <= k < j ==> qs[k].id != qs[i].id;
    assert j == i;
  }

  /** The test `answer !== null` on the key `k`. */
  function HasAnswer(answers: map<string, Option<int>>): string -> bool {
    (k: string) => k in answers && answers[k].Some?
  }

  /** A key whose answer is the question's correct option. */
  function AnsweredCorrectly(qs: seq<Question>, answers: map<string, Option<int>>): string -> bool {
    (k: string) => k in answers && answers[k].Some? && CorrectAnswerOf(qs, k) == answers[k]
  }

  /** The entry for one answered key: its option, and whether that is the
      correct option of the first question with that id. */
  function GradeOne(qs: seq<Question>, answers: map<string, Option<int>>, k: string): (g: GradedAnswer)
    requires HasAnswer(answers)(k)
    ensures g.questionId == k && answers[k] == Some(g.selectedOption)
    ensures g.isCorrect <==> AnsweredCorrectly(qs, answers)(k)
  {
    GradedAnswer(k, answers[k].value, CorrectAnswerOf(qs, k) == answers[k])
  }

  /** One entry per listed key, in order. */
  function GradeList(qs: seq<Question>, answers: map<string, Option<int>>, listed: seq<string>)
    : (r: seq<GradedAnswer>)
    requires forall i :: 0 <= i < |listed| ==> HasAnswer(answers)(listed[i])
    ensures |r| == |listed|
    ensures forall j :: 0 <= j < |r| ==> r[j] == GradeOne(qs, answers, listed[j])
  {
    if listed == [] then []
    else
      var rest := GradeList(qs, answers, listed[1..]);
      assert forall j :: 1 <= j < |listed| ==> listed[j] == listed[1..][j - 1];
      [GradeOne(qs, answers, listed[0])] + rest
  }

  /** The non-null answers among `keys`, in order, each marked correct iff it
      equals the question's correct option: `filter` then `map`. */
  function GradeKeys(qs: seq<Question>, answers: map<string, Option<int>>, keys: seq<string>)
    : (r: seq<GradedAnswer>)
    ensures |r| <= |keys|
    ensures forall j :: 0 <= j < |r| ==>
              r[j].questionId in answers && answers[r[j].questionId] == Some(r[j].selectedOption)
    ensures forall j :: 0 <= j < |r| ==>
              (r[j].isCorrect <==> CorrectAnswerOf(qs, r[j].questionId) == Some(r[j].selectedOption))
    ensures |r| == |Filter(HasAnswer(answers), keys)|
    ensures forall j :: 0 <= j < |r| ==> r[j].questionId == Filter(HasAnswer(answers), keys)[j]
  {
    GradeList(qs, answers, Filter(HasAnswer(answers), keys))
  }

  /** Grading a list key by key: the first key contributes its entry when it
      is answered, and nothing otherwise. */
  lemma GradeKeysCons(qs: seq<Question>, answers: map<string, Option<int>>, keys: seq<string>)
    requires keys != []
    ensures HasAnswer(answers)(keys[0]) ==>
              GradeKeys(qs, answers, keys) == [GradeOne(qs, answers, keys[0])] + GradeKeys(qs, answers, keys[1..])
    ensures !HasAnswer(answers)(keys[0]) ==>
              GradeKeys(qs, answers, keys) == GradeKeys(qs, answers, keys[1..])
  {
    var p := HasAnswer(answers);
    var tail := Filter(p, keys[1..]);
    if p(keys[0]) {
      assert Filter(p, keys) == [keys[0]] + tail;
      assert ([keys[0]] + tail)[1..] == tail;
    } else {
      assert Filter(p, keys) == tail;
    }
  }

  function IsCorrect(g: GradedAnswer): bool {
    g.isCorrect
  }

  /** Grading keeps one entry per answered key, so the correct entries are
      exactly the keys answered with the correct option. */
  lemma {:induction false} GradedCorrectCount(qs: seq<Question>, answers: map<string, Option<int>>, keys: seq<string>)
    ensures Count(IsCorrect, GradeKeys(qs, answers, keys)) == Count(AnsweredCorrectly(qs, answers), keys)
  {
    if keys != [] {
      var rest := GradeKeys(qs, answers, keys[1..]);
      GradedCorrectCount(qs, answers, keys[1..]);
      GradeKeysCons(qs, answers, keys);
      if HasAnswer(answers)(keys[0]) {
        assert ([GradeOne(qs, answers, keys[0])] + rest)[1..] == rest;
      }
    }
  }

  /** The questions answered with their correct option. */
  ghost function CorrectlyAnswered(s: Session): set<string> {
    Passing(AnsweredCorrectly(s.exam.questions, s.answers), s.answers.Keys)
  }

  /** Scoring in `handleSubmit`: each answered question is listed once, with
      its option, marked correct iff it is the question's correct option;
      every question counts towards the total, so an unanswered question
      counts as wrong; the score is the number of questions answered
      correctly, and the verdict is a pass iff the percentage reaches the
      pass mark (compared here by cross-multiplication, the total being
      positive). */
  function Grade(s: Session): (r: Submission)
    requires Inv(s)
    ensures r.examId == s.exam.id && r.studentId == s.student.id && r.studentName == s.student.name
    ensures r.totalQuestions == |s.exam.questions|
    ensures forall j :: 0 <= j < |r.answers| ==>
              r.answers[j].questionId in s.answers
              && s.answers[r.answers[j].questionId] == Some(r.answers[j].selectedOption)
    ensures forall k :: k in s.answers && s.answers[k].Some? ==>
              exists j :: 0 <= j < |r.answers| && r.answers[j].questionId == k
    ensures forall i, j :: 0 <= i < j < |r.answers| ==> r.answers[i].questionId != r.answers[j].questionId
    ensures forall j :: 0 <= j < |r.answers| ==>
              (r.answers[j].isCorrect <==>
               CorrectAnswerOf(s.exam.questions, r.answers[j].questionId) == Some(r.answers[j].selectedOption))
    ensures r.correctAnswers == |CorrectlyAnswered(s)|
    ensures r.correctAnswers <= r.totalQuestions
    ensures r.wrongAnswers == r.totalQuestions - r.correctAnswers && r.wrongAnswers >= 0
    ensures r.score == r.correctAnswers
    ensures r.status == Pass <==> r.correctAnswers * 100 >= s.exam.passPercentage * r.totalQuestions
  {
    var qs := s.exam.questions;
    var keys := Keys(s.order);
    var graded := GradeKeys(qs, s.answers, keys);
    var correct := Count(IsCorrect, graded);
    var total := |qs|;
    assert |s.order| == |multiset(s.order)| == total;
    GradedKeysListed(s, keys, graded);
    GradedCountsCorrectQuestions(s, keys, graded);
    Submission(s.exam.id, s.student.id, s.student.name, graded, total, correct, total - correct,
               correct, if correct * 100 >= s.exam.passPercentage * total then Pass else Fail)
  }

  /** The number of correct entries is the number of questions answered
      correctly. */
  lemma GradedCountsCorrectQuestions(s: Session, keys: seq<string>, graded: seq<GradedAnswer>)
    requires Inv(s) && keys == Keys(s.order) && graded == GradeKeys(s.exam.questions, s.answers, keys)
    ensures Count(IsCorrect, graded) == |CorrectlyAnswered(s)|
  {
    var p := AnsweredCorrectly(s.exam.questions, s.answers);
    GradedCorrectCount(s.exam.questions, s.answers, keys);
    assert forall k :: k in keys <==> k in s.answers.Keys;
    CountOverSet(p, keys, s.answers.Keys);
  }

  /** The graded list names every answered question, and none twice. */
  lemma GradedKeysListed(s: Session, keys: seq<string>, graded: seq<GradedAnswer>)
    requires Inv(s) && keys == Keys(s.order) && graded == GradeKeys(s.exam.questions, s.answers, keys)
    ensures forall k :: k in s.answers && s.answers[k].Some? ==>
              exists j :: 0 <= j < |graded| && graded[j].questionId == k
    ensures forall i, j :: 0 <= i < j < |graded| ==> graded[i].questionId != graded[j].questionId
  {
    var listed := Filter(HasAnswer(s.answers), keys);
    FilterNoDuplicates(HasAnswer(s.answers), keys);
    forall k | k in s.answers && s.answers[k].Some?
      ensures exists j :: 0 <= j < |graded| && graded[j].questionId == k
    {
      var i :| 0 <= i < |keys| && keys[i] == k;
      assert keys[i] in listed;
      var j :| 0 <= j < |listed| && listed[j] == k;
      assert graded[j].questionId == k;
    }
  }

  /** A session with no answer scores nothing and lists nothing. */
  lemma NothingAnsweredScoresZero(s: Session)
    requires Inv(s) && forall k :: k in s.answers ==> s.answers[k].None?
    ensures Grade(s).answers == [] && Grade(s).correctAnswers == 0
    ensures Grade(s).wrongAnswers == |s.exam.questions|
  {
    var r := Grade(s);
    assert CorrectlyAnswered(s) == {};
  }

  /** With distinct ids, there are as many ids as questions. */
  lemma DistinctIdsCount(qs: seq<Question>)
    requires NoDuplicates(Ids(qs))
    ensures |IdSet(qs)| == |qs|
  {
    var ids := Ids(qs);
    var always := (k: string) => true;
    FilterAllKept(always, ids);
    assert forall k :: k in ids <==> k in IdSet(qs) by {
      forall k | k in IdSet(qs) ensures k in ids {
        var j :| 0 <= j < |qs| && qs[j].id == k;
        assert ids[j] == k;
      }
    }
    CountOverSet(always, ids, IdSet(qs));
    assert Passing(always, IdSet(qs)) == IdSet(qs);
  }

  /** When the question ids are distinct and every question carries its
      correct option, every question is answered correctly. */
  lemma AllAnsweredCorrectly(s: Session)
    requires Inv(s) && NoDuplicates(Ids(s.exam.questions))
    requires forall i :: 0 <= i < |s.order| ==> s.answers[s.order[i].id] == Some(s.order[i].correctAnswer)
    ensures CorrectlyAnswered(s) == IdSet(s.exam.questions)
  {
    var qs := s.exam.questions;
    IdSetOfPermutation(s.order, qs);
    forall k | k in s.answers.Keys ensures AnsweredCorrectly(qs, s.answers)(k) {
      var i :| 0 <= i < |s.order| && s.order[i].id == k;
      assert s.order[i] in multiset(qs);
      var j :| 0 <= j < |qs| && qs[j] == s.order[i];
      assert forall m :: 0 <= m < j ==> Ids(qs)[m] != Ids(qs)[j];
      CorrectAnswerAt(qs, j);
    }
  }

  /** With distinct ids and every question carrying its correct option,
      the score is the number of questions and nothing is wrong. */
  lemma AllCorrectScoresFull(s: Session)
    requires Inv(s) && NoDuplicates(Ids(s.exam.questions))
    requires forall i :: 0 <= i < |s.order| ==> s.answers[s.order[i].id] == Some(s.order[i].correctAnswer)
    ensures Grade(s).correctAnswers == Grade(s).totalQuestions && Grade(s).wrongAnswers == 0
  {
    AllAnsweredCorrectly(s);
    DistinctIdsCount(s.exam.questions);
  }

  /** The verdict by cross-multiplication is the verdict the source computes
      from the percentage `correct / total * 100`. */
  lemma VerdictMatchesPercentage(correct: nat, total: nat, pass: int)
    requires total > 0
    ensures correct * 100 >= pass * total
            <==> (correct as real) / (total as real) * 100.0 >= pass as real
  {
    var t := total as real;
    var p := (correct as real) / t * 100.0;
    assert p * t == (correct * 100) as real;
    assert (pass * total) as real == (pass as real) * t;
    if p >= pass as real {
      assert p * t >= (pass as real) * t;
    }
    if (correct * 100) as real >= (pass as real) * t {
      assert p * t >= (pass as real) * t;
    }
  }

  /** The first half of `handleSubmit`. Nothing happens while a submission is
      in flight (or after the session closed). A manual submit with a `null`
      answer left stops unless the learner confirms; an automatic one never
      asks. Otherwise the graded submission goes out and `isSubmitting`
      becomes true. */
  function BeginSubmit(s: Session, auto: bool, confirmed: bool): (t: Session)
    requires Inv(s)
    ensures Inv(t)
    ensures !s.phase.Taking? ==> t == s
    ensures t.(phase := s.phase) == s
    ensures s.phase.Taking? && !auto && UnansweredCount(s) > 0 && !confirmed ==> t == s
    ensures s.phase.Taking? && (auto || UnansweredCount(s) == 0 || confirmed) ==>
              t == s.(phase := InFlight(Grade(s), auto))
  {
    if !s.phase.Taking? then s
    else if !auto && UnansweredCount(s) > 0 && !confirmed then s
    else s.(phase := InFlight(Grade(s), auto))
  }

  /** The second half of `handleSubmit`: `submitExam` answered. On success
      the session closes with the submission it sent; on failure
      `isSubmitting` drops back to false so the learner can retry. */
  function Deliver(s: Session, ok: bool): (t: Transition)
    requires Inv(s)
    ensures Inv(t.next)
    ensures !s.phase.InFlight? ==> t == Transition(s, [])
    ensures t.next.order == s.order && t.next.exam == s.exam && t.next.tabSwitches == s.tabSwitches
    ensures t.next.listening ==> s.listening
    ensures s.phase.InFlight? && ok ==>
              t.next.phase == Closed(s.phase.pending) && !t.next.timerArmed && !t.next.listening
              && t.notices == [if s.phase.auto then TimeEnded else SubmittedOk]
    ensures s.phase.InFlight? && !ok ==>
              t.next == s.(phase := Taking) && t.notices == [SubmitFailed]
  {
    match s.phase
    case InFlight(pending, auto) =>
      if ok then
        Transition(s.(phase := Closed(pending), timerArmed := false, listening := false),
                   [if auto then TimeEnded else SubmittedOk])
      else Transition(s.(phase := Taking), [SubmitFailed])
    case _ => Transition(s, [])
  }

  /** The deadline timer fires: an automatic submit. A session whose end had
      already passed at opening armed no timer, so nothing happens. */
  function OnDeadline(s: Session): (t: Transition)
    requires Inv(s)
    ensures Inv(t.next)
    ensures !s.timerArmed ==> t == Transition(s, [])
    ensures t.next.order == s.order && t.next.exam == s.exam && t.next.tabSwitches == s.tabSwitches
    ensures t.next.listening == s.listening && (s.phase.Closed? ==> t.next == s)
    ensures s.timerArmed ==> t == Transition(BeginSubmit(s.(timerArmed := false), true, false), [])
    ensures s.timerArmed && s.phase.Taking? ==> t.next.phase.InFlight? && t.next.phase.auto
  {
    if !s.timerArmed then Transition(s, [])
    else Transition(BeginSubmit(s.(timerArmed := false), true, false), [])
  }

  /** `handleVisibilityChange`. Only a change to hidden counts, and only if
      the listener was registered. The second hidden event warns; every one
      after it forces an automatic submit. */
  function OnVisibilityChange(s: Session, hidden: bool): (t: Transition)
    requires Inv(s)
    ensures Inv(t.next)
    ensures !s.listening || !hidden ==> t == Transition(s, [])
    ensures t.next.order == s.order && t.next.exam == s.exam && t.next.listening == s.listening
    ensures t.next.tabSwitches >= s.tabSwitches && (s.phase.Closed? ==> t.next == s)
    ensures s.listening && hidden ==> t.next.tabSwitches == s.tabSwitches + 1
    ensures s.listening && hidden && s.tabSwitches + 1 < MaxTabSwitches ==>
              t == Transition(s.(tabSwitches := s.tabSwitches + 1), [])
    ensures s.listening && hidden && s.tabSwitches + 1 == MaxTabSwitches ==>
              t == Transition(s.(tabSwitches := s.tabSwitches + 1), [TabWarning])
    ensures s.listening && hidden && s.tabSwitches + 1 > MaxTabSwitches ==>
              t == Transition(BeginSubmit(s.(tabSwitches := s.tabSwitches + 1), true, false),
                              [TabForcedSubmit])
  {
    if !s.listening || !hidden then Transition(s, [])
    else
      var n := s.tabSwitches + 1;
      var s1 := s.(tabSwitches := n);
      if n == MaxTabSwitches then Transition(s1, [TabWarning])
      else if n > MaxTabSwitches then Transition(BeginSubmit(s1, true, false), [TabForcedSubmit])
      else Transition(s1, [])
  }

  /** Everything that can happen to an open session. `Submit` is the learner's
      submit button together with their answer to the confirmation. */
  datatype Event =
    | AnswerEvent(option: int)
    | FlagEvent
    | GoToEvent(index: nat)
    | VisibilityEvent(hidden: bool)
    | DeadlineEvent
    | SubmitEvent(confirmed: bool)
    | DeliveryEvent(ok: bool)

  function Step(s: Session, e: Event): (t: Transition)
    requires Inv(s)
    ensures Inv(t.next)
    ensures t.next.order == s.order && t.next.exam == s.exam
    ensures t.next.tabSwitches >= s.tabSwitches
    ensures !s.listening ==> !t.next.listening && t.next.tabSwitches == s.tabSwitches
    ensures s.phase.Closed? ==> t.next == s
  {
    match e
    case AnswerEvent(o) => Transition(Answer(s, o), [])
    case FlagEvent => Transition(ToggleFlag(s), [])
    case GoToEvent(i) => Transition(GoTo(s, i), [])
    case VisibilityEvent(h) => OnVisibilityChange(s, h)
    case DeadlineEvent => OnDeadline(s)
    case SubmitEvent(c) => Transition(BeginSubmit(s, false, c), [])
    case DeliveryEvent(ok) => Deliver(s, ok)
  }

  /** The session after a sequence of events. */
  function Run(s: Session, es: seq<Event>): (t: Session)
    requires Inv(s)
    ensures Inv(t)
    decreases |es|
  {
    if es == [] then s else Run(Step(s, es[0]).next, es[1..])
  }

  /** The presentation order is fixed for the whole session: no event
      reshuffles it. */
  lemma {:induction false} OrderNeverChanges(s: Session, es: seq<Event>)
    requires Inv(s)
    ensures Run(s, es).order == s.order
    ensures multiset(Run(s, es).order) == multiset(s.exam.questions)
    decreases |es|
  {
    if es != [] {
      OrderNeverChanges(Step(s, es[0]).next, es[1..]);
    }
  }

  /** The tab-switch counter never goes down. */
  lemma {:induction false} TabSwitchesNeverDecrease(s: Session, es: seq<Event>)
    requires Inv(s)
    ensures Run(s, es).tabSwitches >= s.tabSwitches
    decreases |es|
  {
    if es != [] {
      TabSwitchesNeverDecrease(Step(s, es[0]).next, es[1..]);
    }
  }

  /** When the deadline timer was armed at opening the listener was never
      registered, so no amount of tab switching is ever counted. */
  lemma {:induction false} ArmedSessionIgnoresTabSwitches(s: Session, es: seq<Event>)
    requires Inv(s) && !s.listening
    ensures Run(s, es).tabSwitches == s.tabSwitches
    decreases |es|
  {
    if es != [] {
      ArmedSessionIgnoresTabSwitches(Step(s, es[0]).next, es[1..]);
    }
  }

  /** A closed session is terminal: a second submission can never be
      produced. */
  lemma {:induction false} ClosedIsTerminal(s: Session, es: seq<Event>)
    requires Inv(s) && s.phase.Closed?
    ensures Run(s, es) == s
    decreases |es|
  {
    if es != [] {
      ClosedIsTerminal(Step(s, es[0]).next, es[1..]);
    }
  }

  /** Answering twice keeps only the last choice. */
  lemma LastAnswerWins(s: Session, a: int, b: int)
    requires Inv(s)
    ensures Answer(Answer(s, a), b) == Answer(s, b)
  {
    var id := s.order[s.current].id;
    if !s.phase.Closed? {
      assert s.answers[id := Some(a)][id := Some(b)] == s.answers[id := Some(b)];
      assert s.status[id := Answered][id := Answered] == s.status[id := Answered];
    }
  }

  /** Answer, flag, unflag: the status ends `unanswered` although the answer
      is still recorded. */
  lemma AnswerFlagUnflag(s: Session, option: int)
    requires Inv(s) && !s.phase.Closed?
    ensures ToggleFlag(ToggleFlag(Answer(s, option))).status[Current(s).id] == Unanswered
    ensures ToggleFlag(ToggleFlag(Answer(s, option))).answers[Current(s).id] == Some(option)
  {
  }

  /** Flagging twice restores the status only from `unanswered` or
      `flagged`. */
  lemma FlagTwice(s: Session)
    requires Inv(s) && !s.phase.Closed?
    ensures s.status[Current(s).id] != Answered ==> ToggleFlag(ToggleFlag(s)) == s
    ensures s.status[Current(s).id] == Answered ==>
              ToggleFlag(ToggleFlag(s)).status[Current(s).id] == Unanswered
  {
    var id := s.order[s.current].id;
    assert id in IdSet(s.order);
    var old_ := s.status[id];
    var once := if old_ == Flagged then Unanswered else Flagged;
    var t1 := ToggleFlag(s);
    assert t1 == s.(status := s.status[id := once]);
    var twice := if once == Flagged then Unanswered else Flagged;
    assert ToggleFlag(t1) == s.(status := s.status[id := once][id := twice]);
    assert s.status[id := once][id := twice] == s.status[id := twice];
    if old_ != Answered {
      assert twice == old_;
      assert s.status[id := old_] == s.status;
    }
  }

  /** A failed delivery leaves the session open and a confirmed resubmission
      goes out again. */
  lemma RetryAfterFailure(s: Session)
    requires Inv(s) && s.phase.InFlight?
    ensures Deliver(s, false).next.phase == Taking
    ensures BeginSubmit(Deliver(s, false).next, false, true).phase.InFlight?
  {
  }

  /** The tab-switch policy from a freshly opened, listening session: the
      first hidden event is silent, the second warns, the third forces an
      automatic submit. */
  lemma ThirdTabSwitchSubmits(s: Session)
    requires Inv(s) && s.listening && s.tabSwitches == 0 && s.phase == Taking
    ensures OnVisibilityChange(s, true).notices == []
    ensures OnVisibilityChange(OnVisibilityChange(s, true).next, true).notices == [TabWarning]
    ensures var s2 := OnVisibilityChange(OnVisibilityChange(s, true).next, true).next;
            var t3 := OnVisibilityChange(s2, true);
            t3.notices == [TabForcedSubmit] && t3.next.phase.InFlight? && t3.next.phase.auto
  {
  }
}
