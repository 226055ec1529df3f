/** The admin's assignment form (`SubjectAssignmentForm`): the checks run
    before the store is asked to assign, and what the admin is told. */
module SubjectAssignmentForm {
  import opened Js
  import opened Seqs
  import TeacherStore

  /** The form's fields. The semester comes from a select offering the
      numerals 1 to 8, so `parseInt` of it is a natural number. */
  datatype FormData = FormData(
    teacherId: string,
    subjectCode: string,
    subjectName: string,
    department: string,
    semester: nat,
    className: string,
    isLab: bool)

  datatype Toast = Success(text: string) | Error(text: string)

  /** The store afterwards, the toast shown, and whether the form closed. */
  datatype Submitted = Submitted(store: TeacherStore.Store, toast: Toast, closed: bool)

  function RequestOf(f: FormData): TeacherStore.Request {
    TeacherStore.Request(f.teacherId, f.subjectCode, f.subjectName, f.department, f.semester,
                         f.className, f.isLab)
  }

  predicate TeacherListed(st: TeacherStore.Store, f: FormData) {
    exists i :: 0 <= i < |st.teachers| && st.teachers[i].id == f.teacherId
  }

  /** The first teacher with the chosen id already lists the subject by
      name. */
  predicate TeachesAlready(st: TeacherStore.Store, f: FormData) {
    var t := Find(TeacherStore.TeacherIs(f.teacherId), st.teachers);
    t.Some? && f.subjectName in t.value.subjects
  }

  /** `handleSubmit`. `editing` says whether an existing assignment is being
      edited; `created` and `linked` are how the store's two requests
      settle. The two duplicate checks apply only to a new assignment. */
  function Submit(st: TeacherStore.Store, f: FormData, editing: bool,
                  created: Settled<TeacherStore.ServerSubject>, linked: Settled<()>): (r: Submitted)
    ensures !TeacherListed(st, f) ==>
              r == Submitted(st, Error("Selected teacher not found"), false)
    ensures TeacherListed(st, f) && !editing && TeachesAlready(st, f) ==>
              r == Submitted(st, Error("This subject is already assigned to this teacher"), false)
    ensures TeacherListed(st, f) && !editing && !TeachesAlready(st, f)
            && TeacherStore.IsSubjectAssigned(st, f.subjectCode, f.department, f.semester, f.className) ==>
              r == Submitted(st, Error(TeacherStore.AlreadyAssigned), false)
    ensures TeacherListed(st, f)
            && (editing || (!TeachesAlready(st, f)
                            && !TeacherStore.IsSubjectAssigned(st, f.subjectCode, f.department, f.semester, f.className)))
            ==> var o := TeacherStore.AssignSubject(st, RequestOf(f), created, linked);
                r.store == o.store && (r.closed <==> o.result.Resolved?)
                && (o.result.Rejected? ==> r.toast == Error(o.result.message))
    ensures r.closed <==> r.toast.Success?
    ensures r.closed ==>
              |r.store.assignments| == |st.assignments| + 1
              && r.store.assignments[..|st.assignments|] == st.assignments
    ensures r.toast == Success("Subject assignment updated successfully") ==> editing
    ensures r.toast == Success("Subject assigned successfully") ==> !editing
    ensures r.store != st ==> TeacherListed(st, f)
  {
    if !TeacherListed(st, f) then Submitted(st, Error("Selected teacher not found"), false)
    else if TeachesAlready(st, f) && !editing then
      Submitted(st, Error("This subject is already assigned to this teacher"), false)
    else if !editing && TeacherStore.IsSubjectAssigned(st, f.subjectCode, f.department, f.semester, f.className) then
      Submitted(st, Error(TeacherStore.AlreadyAssigned), false)
    else
      var o := TeacherStore.AssignSubject(st, RequestOf(f), created, linked);
      match o.result
      case Resolved(_) =>
        Submitted(o.store, Success(if editing then "Subject assignment updated successfully"
                                   else "Subject assigned successfully"), true)
      case Rejected(m) => Submitted(o.store, Error(m), false)
  }

  /** When editing, both duplicate checks are skipped: the store is asked
      straight away. */
  lemma EditingGoesStraightToStore(st: TeacherStore.Store, f: FormData,
                                   created: Settled<TeacherStore.ServerSubject>, linked: Settled<()>)
    requires TeacherListed(st, f)
    ensures Submit(st, f, true, created, linked).store
         == TeacherStore.AssignSubject(st, RequestOf(f), created, linked).store
  {
  }

  /** The form's case-insensitive duplicate check is stricter than the
      store's exact one: a new assignment the form lets through is never
      refused by the store as a duplicate for the class. */
  lemma FormCheckCoversStoreCheck(st: TeacherStore.Store, f: FormData)
    requires !TeacherStore.IsSubjectAssigned(st, f.subjectCode, f.department, f.semester, f.className)
    ensures !TeacherStore.ClassTaken(st, RequestOf(f))
  {
    forall i | 0 <= i < |st.assignments|
      ensures !TeacherStore.SameClass(st.assignments[i], RequestOf(f))
    {
      if TeacherStore.SameClass(st.assignments[i], RequestOf(f)) {
        assert TeacherStore.Covers(st.assignments[i], f.subjectCode, f.department, f.semester, f.className);
      }
    }
  }

  /** Saving an edit without changing the subject or class is always
      refused: the assignment being edited is itself found as the class's
      duplicate, and the admin sees that message. */
  lemma UnchangedEditRefused(st: TeacherStore.Store, f: FormData,
                             created: Settled<TeacherStore.ServerSubject>, linked: Settled<()>)
    requires TeacherListed(st, f)
    requires TeacherStore.KnownSubject(st, RequestOf(f)) && TeacherStore.ClassTaken(st, RequestOf(f))
    ensures Submit(st, f, true, created, linked) == Submitted(
              TeacherStore.Failed(st, "Failed to assign subject"), Error(TeacherStore.AlreadyAssigned), false)
  {
    assert TeacherStore.KnownTeacher(st, RequestOf(f));
  }
}
