/** The student list (`studentStore`): normalising what the server returns,
    the list operations after each request, and the two lookups. The requests
    themselves are inputs: how each one settled. */
module StudentStore {
  import opened Js
  import opened Seqs

  /** A student as the server sends it; any field may be missing. `_id` is
      the database id. */
  datatype RawStudent = RawStudent(
    mongoId: Option<string>,
    id: Option<string>,
    name: Option<string>,
    username: Option<string>,
    email: Option<string>,
    className: Option<string>,
    semester: Option<string>,
    department: Option<string>,
    rollNumber: Option<string>)

  /** A student as the store keeps it. Every field may be missing: a fetched
      student has its text fields filled in, but a created one is kept as the
      server sent it. */
  datatype Student = Student(
    id: Option<string>,
    name: Option<string>,
    username: Option<string>,
    email: Option<string>,
    className: Option<string>,
    semester: Option<string>,
    department: Option<string>,
    rollNumber: Option<string>)

  /** A `Partial<Student>`, as the update request returns it. */
  datatype StudentPatch = StudentPatch(
    id: Option<Option<string>>,
    name: Option<Option<string>>,
    username: Option<Option<string>>,
    email: Option<Option<string>>,
    className: Option<Option<string>>,
    semester: Option<Option<string>>,
    department: Option<Option<string>>,
    rollNumber: Option<Option<string>>)

  datatype State = State(students: seq<Student>, loading: bool, error: Option<string>)

  /** The database id wins when it is present and non-empty; the optional
      text fields become empty strings when missing. */
  function Normalise(raw: RawStudent): (s: Student)
    ensures raw.mongoId.Some? && raw.mongoId.value != "" ==> s.id == raw.mongoId
    ensures raw.mongoId.None? || raw.mongoId.value == "" ==> s.id == raw.id
    ensures s.name == raw.name && s.username == raw.username
    ensures s.email == Some(raw.email.GetOr("")) && s.className == Some(raw.className.GetOr(""))
    ensures s.semester == Some(raw.semester.GetOr("")) && s.department == Some(raw.department.GetOr(""))
    ensures s.rollNumber == Some(raw.rollNumber.GetOr(""))
  {
    OrEmptyIsGetOr(raw.email);
    OrEmptyIsGetOr(raw.className);
    OrEmptyIsGetOr(raw.semester);
    OrEmptyIsGetOr(raw.department);
    OrEmptyIsGetOr(raw.rollNumber);
    Student(Or(raw.mongoId, raw.id), raw.name, raw.username,
            Some(OrDefault(raw.email, "")), Some(OrDefault(raw.className, "")),
            Some(OrDefault(raw.semester, "")), Some(OrDefault(raw.department, "")),
            Some(OrDefault(raw.rollNumber, "")))
  }

  /** The record as the server sent it, without normalising: `_id` is not
      consulted and missing fields stay missing. */
  function AsSent(raw: RawStudent): Student {
    Student(raw.id, raw.name, raw.username, raw.email, raw.className, raw.semester,
            raw.department, raw.rollNumber)
  }

  /** `{ ...s, ...patch }`. */
  function Merge(s: Student, p: StudentPatch): Student {
    Student(p.id.GetOr(s.id), p.name.GetOr(s.name), p.username.GetOr(s.username),
            p.email.GetOr(s.email), p.className.GetOr(s.className), p.semester.GetOr(s.semester),
            p.department.GetOr(s.department), p.rollNumber.GetOr(s.rollNumber))
  }

  /** A failed request leaves the list alone and records the message; the
      error is not thrown on. */
  function Failed(st: State, message: string): State {
    st.(loading := false, error := Some(message))
  }

  /** `fetchStudents`: one normalised student per record received, in order. */
  function FetchStudents(st: State, reply: Settled<seq<RawStudent>>): (r: State)
    ensures !r.loading
    ensures reply.Resolved? ==>
              r.error.None? && |r.students| == |reply.value|
              && forall i :: 0 <= i < |reply.value| ==> r.students[i] == Normalise(reply.value[i])
    ensures reply.Rejected? ==>
              r.students == st.students && r.error == Some("Failed to fetch students")
  {
    match reply
    case Rejected(_) => Failed(st, "Failed to fetch students")
    case Resolved(raw) =>
      State(seq(|raw|, i requires 0 <= i < |raw| => Normalise(raw[i])), false, None)
  }

  /** `addStudent`: the created student is appended as the server sent it;
      unlike a fetch, nothing is normalised. */
  function AddStudent(st: State, reply: Settled<RawStudent>): (r: State)
    ensures !r.loading
    ensures reply.Resolved? ==>
              r.error.None? && |r.students| == |st.students| + 1
              && r.students[..|st.students|] == st.students
              && r.students[|st.students|].id == reply.value.id
              && r.students[|st.students|].className == reply.value.className
              && r.students[|st.students|].semester == reply.value.semester
              && r.students[|st.students|].name == reply.value.name
    ensures reply.Rejected? ==>
              r.students == st.students && r.error == Some("Failed to add student")
  {
    match reply
    case Rejected(_) => Failed(st, "Failed to add student")
    case Resolved(raw) => State(st.students + [AsSent(raw)], false, None)
  }

  /** `updateStudent`: what the server returns is merged into every student
      with that id; the others and the length are kept. */
  function UpdateStudent(st: State, id: string, reply: Settled<StudentPatch>): (r: State)
    ensures !r.loading
    ensures reply.Resolved? ==>
              r.error.None? && |r.students| == |st.students|
              && (forall i :: 0 <= i < |st.students| && st.students[i].id == Some(id) ==>
                    r.students[i] == Merge(st.students[i], reply.value))
              && (forall i :: 0 <= i < |st.students| && st.students[i].id != Some(id) ==>
                    r.students[i] == st.students[i])
    ensures reply.Rejected? ==>
              r.students == st.students && r.error == Some("Failed to update student")
  {
    match reply
    case Rejected(_) => Failed(st, "Failed to update student")
    case Resolved(p) =>
      var ss := st.students;
      State(seq(|ss|, i requires 0 <= i < |ss| => if ss[i].id == Some(id) then Merge(ss[i], p) else ss[i]),
            false, None)
  }

  function WithoutId(ss: seq<Student>, id: string): seq<Student> {
    Filter((s: Student) => s.id != Some(id), ss)
  }

  /** `deleteStudent`: every student with that id goes, the rest stay. */
  function DeleteStudent(st: State, id: string, reply: Settled<()>): (r: State)
    ensures !r.loading
    ensures reply.Resolved? ==>
              r.error.None? && forall s :: s in r.students <==> s in st.students && s.id != Some(id)
    ensures reply.Rejected? ==>
              r.students == st.students && r.error == Some("Failed to delete student")
  {
    match reply
    case Rejected(_) => Failed(st, "Failed to delete student")
    case Resolved(_) => State(WithoutId(st.students, id), false, None)
  }

  /** `getStudentsByClass`: exactly the students of that class, matched
      exactly. */
  function ByClass(st: State, className: string): (r: seq<Student>)
    ensures forall s :: s in r <==> s in st.students && s.className == Some(className)
  {
    Filter((s: Student) => s.className == Some(className), st.students)
  }

  /** `getStudentsBySemester`: exactly the students of that semester. */
  function BySemester(st: State, semester: string): (r: seq<Student>)
    ensures forall s :: s in r <==> s in st.students && s.semester == Some(semester)
  {
    Filter((s: Student) => s.semester == Some(semester), st.students)
  }

  /** A successful fetch replaces the list whatever it held before, and every
      fetched student has all of its text fields. */
  lemma FetchReplacesList(st: State, other: State, raw: seq<RawStudent>)
    ensures FetchStudents(st, Resolved(raw)) == FetchStudents(other, Resolved(raw))
    ensures forall s :: s in FetchStudents(st, Resolved(raw)).students ==>
              s.email.Some? && s.className.Some? && s.semester.Some?
              && s.department.Some? && s.rollNumber.Some?
  {
    var ss := FetchStudents(st, Resolved(raw)).students;
    forall s | s in ss
      ensures s.email.Some? && s.className.Some? && s.semester.Some?
              && s.department.Some? && s.rollNumber.Some?
    {
      var i :| 0 <= i < |ss| && ss[i] == s;
      assert s == Normalise(raw[i]);
    }
  }

  /** Merging the same reply twice is merging it once. */
  lemma MergeTwice(s: Student, p: StudentPatch)
    ensures Merge(Merge(s, p), p) == Merge(s, p)
  {
  }

  /** Applying the same update reply twice is applying it once, even when the
      reply changes the id. */
  lemma UpdateStudentIdempotent(st: State, id: string, p: StudentPatch)
    ensures UpdateStudent(UpdateStudent(st, id, Resolved(p)), id, Resolved(p))
         == UpdateStudent(st, id, Resolved(p))
  {
    var once := UpdateStudent(st, id, Resolved(p));
    var twice := UpdateStudent(once, id, Resolved(p));
    forall i | 0 <= i < |st.students|
      ensures twice.students[i] == once.students[i]
    {
      if st.students[i].id == Some(id) {
        MergeTwice(st.students[i], p);
      }
    }
  }

  /** Deleting keeps the survivors in order: deleting from a list split in
      two is deleting from each part. */
  lemma DeleteKeepsOrder(a: seq<Student>, b: seq<Student>, id: string)
    ensures WithoutId(a + b, id) == WithoutId(a, id) + WithoutId(b, id)
  {
    FilterAppend((s: Student) => s.id != Some(id), a, b);
  }

  /** Adding a student under a new id and then deleting that id restores the
      list. */
  lemma DeleteUndoesAdd(st: State, raw: RawStudent, id: string)
    requires raw.id == Some(id)
    requires forall i :: 0 <= i < |st.students| ==> st.students[i].id != Some(id)
    ensures DeleteStudent(AddStudent(st, Resolved(raw)), id, Resolved(())).students == st.students
  {
    var keep := (x: Student) => x.id != Some(id);
    FilterAppend(keep, st.students, [AsSent(raw)]);
    FilterAllKept(keep, st.students);
  }

  /** A created student that the server sent with only a database id has no
      `id` in the store, so deleting by that database id leaves it in place. */
  lemma AddedByMongoIdSurvivesDelete(st: State, raw: RawStudent, id: string)
    requires raw.id.None? && raw.mongoId == Some(id)
    ensures AsSent(raw) in DeleteStudent(AddStudent(st, Resolved(raw)), id, Resolved(())).students
  {
  }

  /** A created student sent with its `id` and every field, and no database
      id, is the same record a later fetch would normalise it to. */
  lemma AddedMatchesFetched(raw: RawStudent)
    requires raw.mongoId.None?
    requires raw.email.Some? && raw.className.Some? && raw.semester.Some?
    requires raw.department.Some? && raw.rollNumber.Some?
    ensures AsSent(raw) == Normalise(raw)
  {
  }

  /** An added student is found under its class, after those already there. */
  lemma AddedStudentInClass(st: State, raw: RawStudent, className: string)
    requires raw.className == Some(className)
    ensures ByClass(AddStudent(st, Resolved(raw)), className) == ByClass(st, className) + [AsSent(raw)]
  {
    FilterAppend((x: Student) => x.className == Some(className), st.students, [AsSent(raw)]);
  }

  /** A created student sent without a class is in no class. */
  lemma AddedWithoutClassInNone(st: State, raw: RawStudent, className: string)
    requires raw.className.None?
    ensures ByClass(AddStudent(st, Resolved(raw)), className) == ByClass(st, className)
  {
    FilterAppend((x: Student) => x.className == Some(className), st.students, [AsSent(raw)]);
  }
}
