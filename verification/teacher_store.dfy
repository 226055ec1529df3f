/** The admin's teacher and assignment list (`teacherStore`): teachers, the
    subjects known to the client, and the subject assignments (which teacher
    teaches which subject to which class). Every request to the server is an
    input: how it settled. */
module TeacherStore {
  import opened Js
  import opened Seqs
  import SubjectsApi

  type ServerSubject = SubjectsApi.ServerSubject

  datatype Teacher = Teacher(
    id: string,
    name: string,
    username: string,
    department: string,
    subjects: seq<string>,
    hasSetPassword: bool)

  /** A `Partial<Teacher>`, as the update request returns it. */
  datatype TeacherPatch = TeacherPatch(
    id: Option<string>,
    name: Option<string>,
    username: Option<string>,
    department: Option<string>,
    subjects: Option<seq<string>>,
    hasSetPassword: Option<bool>)

  /** One teacher teaching one subject to one class. The teacher fields come
      from the server and may be missing. */
  datatype Assignment = Assignment(
    id: string,
    teacherId: Option<string>,
    teacherName: Option<string>,
    teacherUsername: Option<string>,
    subjectCode: string,
    subjectName: string,
    department: string,
    semester: int,
    className: string,
    isLab: bool)

  /** What the assignment form asks for. */
  datatype Request = Request(
    teacherId: string,
    subjectCode: string,
    subjectName: string,
    department: string,
    semester: int,
    className: string,
    isLab: bool)

  datatype Store = Store(
    teachers: seq<Teacher>,
    subjects: seq<ServerSubject>,
    assignments: seq<Assignment>,
    loading: bool,
    error: Option<string>)

  /** The store afterwards, and whether the action settled or threw. */
  datatype Outcome = Outcome(store: Store, result: Settled<()>)

  const AlreadyAssigned := "This subject is already assigned to another teacher for this class"

  function Failed(st: Store, message: string): Store {
    st.(loading := false, error := Some(message))
  }

  /** `_id || id` of a subject. */
  function SubjectKey(s: ServerSubject): Option<string> {
    Or(s.mongoId, s.id)
  }

  // ---------------------------------------------------------------------
  // fetchSubjects
  // ---------------------------------------------------------------------

  /** The assignment of one teacher entry of a subject: the id joins the
      subject's and the teacher's ids with a dash, the class is "A" unless
      the subject has one, and `isLab` is false unless set. */
  function Pair(s: ServerSubject, t: SubjectsApi.TeacherEntry): (a: Assignment)
    ensures a.id == Show(SubjectKey(s)) + "-" + Show(Or(SubjectsApi.EntryMongoId(t), SubjectsApi.EntryId(t)))
    ensures a.teacherId == Or(SubjectsApi.EntryMongoId(t), SubjectsApi.EntryId(t))
    ensures a.teacherName == SubjectsApi.EntryName(t) && a.teacherUsername == SubjectsApi.EntryUsername(t)
    ensures a.subjectCode == s.code && a.subjectName == s.name
    ensures a.department == s.department && a.semester == s.semester
    ensures a.className == (if s.className.Some? && s.className.value != "" then s.className.value else "A")
    ensures a.isLab <==> s.isLab == Some(true)
  {
    var teacherId := Or(SubjectsApi.EntryMongoId(t), SubjectsApi.EntryId(t));
    Assignment(Show(SubjectKey(s)) + "-" + Show(teacherId), teacherId,
               SubjectsApi.EntryName(t), SubjectsApi.EntryUsername(t),
               s.code, s.name, s.department, s.semester, OrDefault(s.className, "A"), OrFalse(s.isLab))
  }

  function TeacherCount(s: ServerSubject): nat {
    if s.teachers.Some? then |s.teachers.value| else 0
  }

  /** The assignments of the teacher entries `ts` of subject `s`, one per
      entry, in order. */
  function PairsFrom(s: ServerSubject, ts: seq<SubjectsApi.TeacherEntry>): (r: seq<Assignment>)
    ensures |r| == |ts|
  {
    if ts == [] then [] else [Pair(s, ts[0])] + PairsFrom(s, ts[1..])
  }

  /** The assignments of one subject (`subject.teachers.map(...)`, or none
      when the subject has no teacher list). */
  function PairsOf(s: ServerSubject): (r: seq<Assignment>)
    ensures |r| == TeacherCount(s)
  {
    if s.teachers.Some? then PairsFrom(s, s.teachers.value) else []
  }

  /** The j-th assignment comes from the j-th teacher entry. */
  lemma {:induction false} PairsFromAt(s: ServerSubject, ts: seq<SubjectsApi.TeacherEntry>, j: nat)
    requires j < |ts|
    ensures PairsFrom(s, ts)[j] == Pair(s, ts[j])
  {
    if j > 0 {
      PairsFromAt(s, ts[1..], j - 1);
    }
  }

  /** The j-th assignment of a subject belongs to its j-th teacher entry. */
  lemma PairsOfAt(s: ServerSubject, j: nat)
    requires s.teachers.Some? && j < |s.teachers.value|
    ensures j < |PairsOf(s)| && PairsOf(s)[j] == Pair(s, s.teachers.value[j])
  {
    PairsFromAt(s, s.teachers.value, j);
  }

  function TotalTeachers(ss: seq<ServerSubject>): nat {
    if ss == [] then 0 else TotalTeachers(ss[..|ss| - 1]) + TeacherCount(ss[|ss| - 1])
  }

  /** The pairs of all subjects, subject after subject. */
  lemma {:induction false} PairCount(ss: seq<ServerSubject>)
    ensures |FlatMap(PairsOf, ss)| == TotalTeachers(ss)
  {
    if ss != [] {
      PairCount(ss[..|ss| - 1]);
    }
  }

  /** Every subject's assignments, subject after subject: one per teacher
      entry over all subjects. */
  function Flatten(ss: seq<ServerSubject>): (r: seq<Assignment>)
    ensures |r| == TotalTeachers(ss)
  {
    PairCount(ss);
    FlatMap(PairsOf, ss)
  }

  /** Flattening follows the order of the subjects: the assignments of a
      list split in two are those of the first part, then those of the
      second. */
  lemma FlattenAppend(a: seq<ServerSubject>, b: seq<ServerSubject>)
    ensures Flatten(a + b) == Flatten(a) + Flatten(b)
  {
    FlatMapAppend(PairsOf, a, b);
  }

  /** The j-th teacher of the i-th subject yields the assignment right after
      those of the subjects before it. */
  lemma FlattenPosition(ss: seq<ServerSubject>, i: nat, j: nat)
    requires i < |ss| && ss[i].teachers.Some? && j < |ss[i].teachers.value|
    ensures TotalTeachers(ss[..i]) + j < |Flatten(ss)|
    ensures Flatten(ss)[TotalTeachers(ss[..i]) + j] == Pair(ss[i], ss[i].teachers.value[j])
  {
    PairsOfAt(ss[i], j);
    FlatMapAt(PairsOf, ss, i, j);
    PairCount(ss[..i]);
  }

  /** `fetchSubjects`: the subjects are replaced by the reshaped server list
      and the assignments by one per (subject, teacher) pair. A failure only
      records the error. */
  function FetchSubjects(st: Store, reply: Settled<seq<ServerSubject>>): (r: Store)
    ensures !r.loading
    ensures reply.Rejected? ==>
              r == Failed(st, "Failed to fetch subjects")
    ensures reply.Resolved? ==>
              r.error.None? && r.teachers == st.teachers
              && r.subjects == SubjectsApi.AllSubjects(reply.value)
              && r.assignments == Flatten(r.subjects)
              && |r.subjects| == |reply.value|
              && |r.assignments| == TotalTeachers(r.subjects)
  {
    match reply
    case Rejected(_) => Failed(st, "Failed to fetch subjects")
    case Resolved(raw) =>
      var subjects := SubjectsApi.AllSubjects(raw);
      Store(st.teachers, subjects, Flatten(subjects), false, None)
  }

  // ---------------------------------------------------------------------
  // isSubjectAssigned
  // ---------------------------------------------------------------------

  /** Same code, department and class ignoring case, and the same semester. */
  predicate Covers(a: Assignment, code: string, department: string, semester: int, className: string) {
    Lower(a.subjectCode) == Lower(code) && Lower(a.department) == Lower(department)
    && a.semester == semester && Lower(a.className) == Lower(className)
  }

  /** `isSubjectAssigned`. */
  function IsSubjectAssigned(st: Store, code: string, department: string, semester: int, className: string)
    : (r: bool)
    ensures r <==> exists i :: 0 <= i < |st.assignments| && Covers(st.assignments[i], code, department, semester, className)
  {
    Any((a: Assignment) => Covers(a, code, department, semester, className), st.assignments)
  }

  /** Letter case never matters to the lookup. */
  lemma IsSubjectAssignedIgnoresCase(st: Store, code: string, department: string, semester: int, className: string)
    ensures IsSubjectAssigned(st, Lower(code), Lower(department), semester, Lower(className))
        == IsSubjectAssigned(st, code, department, semester, className)
  {
    LowerTwice(code);
    LowerTwice(department);
    LowerTwice(className);
  }

  lemma LowerTwice(s: string)
    ensures Lower(Lower(s)) == Lower(s)
  {
  }

  // ---------------------------------------------------------------------
  // assignSubject
  // ---------------------------------------------------------------------

  predicate SameSubject(s: ServerSubject, q: Request) {
    s.code == q.subjectCode && s.department == q.department && s.semester == q.semester
  }

  /** The exact-match duplicate test `assignSubject` itself applies. */
  predicate SameClass(a: Assignment, q: Request) {
    a.subjectCode == q.subjectCode && a.department == q.department
    && a.semester == q.semester && a.className == q.className
  }

  function TeacherIs(id: string): Teacher -> bool {
    (t: Teacher) => t.id == id
  }

  function SubjectFor(q: Request): ServerSubject -> bool {
    (s: ServerSubject) => SameSubject(s, q)
  }

  function ClassFor(q: Request): Assignment -> bool {
    (a: Assignment) => SameClass(a, q)
  }

  predicate KnownTeacher(st: Store, q: Request) {
    exists i :: 0 <= i < |st.teachers| && st.teachers[i].id == q.teacherId
  }

  predicate KnownSubject(st: Store, q: Request) {
    exists i :: 0 <= i < |st.subjects| && SameSubject(st.subjects[i], q)
  }

  predicate ClassTaken(st: Store, q: Request) {
    exists i :: 0 <= i < |st.assignments| && SameClass(st.assignments[i], q)
  }

  /** The new assignment: the request's fields, the teacher's name and
      username, and an id joining the subject's id and the teacher's. */
  function NewAssignment(q: Request, t: Teacher, subjectId: Option<string>): Assignment {
    Assignment(Show(subjectId) + "-" + q.teacherId, Some(q.teacherId), Some(t.name), Some(t.username),
               q.subjectCode, q.subjectName, q.department, q.semester, q.className, q.isLab)
  }

  /** The last step: ask the server to assign, then append. */
  function Finish(st: Store, q: Request, t: Teacher, subjectId: Option<string>, linked: Settled<()>): (r: Outcome)
    ensures r.store.teachers == st.teachers && r.store.subjects == st.subjects && !r.store.loading
    ensures r.result.Resolved? <==> linked.Resolved?
    ensures linked.Rejected? ==>
              r.store.assignments == st.assignments && r.store.error == Some("Failed to assign subject")
    ensures linked.Resolved? ==> r.store.assignments == st.assignments + [NewAssignment(q, t, subjectId)]
  {
    match linked
    case Rejected(m) => Outcome(Failed(st, "Failed to assign subject"), Rejected(m))
    case Resolved(_) =>
      Outcome(st.(assignments := st.assignments + [NewAssignment(q, t, subjectId)], loading := false, error := None),
              Resolved(()))
  }

  /** The id of the subject the assignment goes to: the known one, or the
      one just created. */
  function TargetKey(st: Store, q: Request, created: Settled<ServerSubject>): Option<string> {
    match Find(SubjectFor(q), st.subjects)
    case Some(existing) => SubjectKey(existing)
    case None => if created.Resolved? then SubjectKey(created.value) else None
  }

  /** `assignSubject`. `created` is how creating the subject settles (asked
      only when no subject with that code, department and semester is known)
      and `linked` how the assign request settles. */
  function AssignSubject(st: Store, q: Request, created: Settled<ServerSubject>, linked: Settled<()>): (r: Outcome)
    ensures !KnownTeacher(st, q) ==>
              r == Outcome(Failed(st, "Failed to assign subject"), Rejected("Teacher not found"))
    ensures KnownTeacher(st, q) && KnownSubject(st, q) && ClassTaken(st, q) ==>
              r == Outcome(Failed(st, "Failed to assign subject"), Rejected(AlreadyAssigned))
    ensures r.result.Resolved? <==>
              KnownTeacher(st, q) && linked.Resolved?
              && (if KnownSubject(st, q) then !ClassTaken(st, q) else created.Resolved?)
    ensures r.store.teachers == st.teachers && !r.store.loading
    ensures r.result.Rejected? ==>
              r.store.assignments == st.assignments && r.store.error == Some("Failed to assign subject")
    ensures r.store.subjects == st.subjects
            || (!KnownSubject(st, q) && created.Resolved? && r.store.subjects == st.subjects + [created.value])
    ensures r.result.Resolved? ==>
              |r.store.assignments| == |st.assignments| + 1
              && r.store.assignments[..|st.assignments|] == st.assignments
              && exists i :: 0 <= i < |st.teachers| && st.teachers[i].id == q.teacherId
                   && r.store.assignments[|st.assignments|] == NewAssignment(q, st.teachers[i], TargetKey(st, q, created))
  {
    match Find(TeacherIs(q.teacherId), st.teachers)
    case None => Outcome(Failed(st, "Failed to assign subject"), Rejected("Teacher not found"))
    case Some(t) =>
      match Find(SubjectFor(q), st.subjects)
      case Some(existing) =>
        if Any(ClassFor(q), st.assignments) then
          Outcome(Failed(st, "Failed to assign subject"), Rejected(AlreadyAssigned))
        else Finish(st, q, t, SubjectKey(existing), linked)
      case None =>
        match created
        case Rejected(m) => Outcome(Failed(st, "Failed to assign subject"), Rejected(m))
        case Resolved(c) => Finish(st.(subjects := st.subjects + [c]), q, t, SubjectKey(c), linked)
  }

  /** After a successful assignment the lookup the form uses reports the
      class as taken. */
  lemma AssignedIsFound(st: Store, q: Request, created: Settled<ServerSubject>, linked: Settled<()>)
    requires AssignSubject(st, q, created, linked).result.Resolved?
    ensures IsSubjectAssigned(AssignSubject(st, q, created, linked).store,
                              q.subjectCode, q.department, q.semester, q.className)
  {
    var r := AssignSubject(st, q, created, linked);
    assert Covers(r.store.assignments[|st.assignments|], q.subjectCode, q.department, q.semester, q.className);
  }

  /** Asking for the same assignment again is refused as a duplicate, once
      the subject is known (it was known already, or the server created it
      with the requested code, department and semester). */
  lemma SecondAssignRefused(st: Store, q: Request, created: Settled<ServerSubject>, linked: Settled<()>,
                            created2: Settled<ServerSubject>, linked2: Settled<()>)
    requires AssignSubject(st, q, created, linked).result.Resolved?
    requires created.Resolved? ==> SameSubject(created.value, q)
    ensures AssignSubject(AssignSubject(st, q, created, linked).store, q, created2, linked2).result
         == Rejected(AlreadyAssigned)
  {
    var r := AssignSubject(st, q, created, linked);
    assert KnownTeacher(st, q);
    assert KnownTeacher(r.store, q);
    assert SameClass(r.store.assignments[|st.assignments|], q);
    assert ClassTaken(r.store, q);
    if !KnownSubject(st, q) {
      assert r.store.subjects == st.subjects + [created.value];
      assert SameSubject(r.store.subjects[|st.subjects|], q);
    } else {
      var i :| 0 <= i < |st.subjects| && SameSubject(st.subjects[i], q);
      assert r.store.subjects[i] == st.subjects[i];
    }
    assert KnownSubject(r.store, q);
  }

  // ---------------------------------------------------------------------
  // deleteTeacher, updateTeacher, removeSubjectAssignment
  // ---------------------------------------------------------------------

  function OtherTeacher(id: string): Teacher -> bool {
    (t: Teacher) => t.id != id
  }

  function NotTaughtBy(id: string): Assignment -> bool {
    (a: Assignment) => a.teacherId != Some(id)
  }

  /** `deleteTeacher`: the teacher goes, and so does every assignment of
      theirs; everything else stays, in order. A failure only records the
      error. */
  function DeleteTeacher(st: Store, id: string, reply: Settled<()>): (r: Outcome)
    ensures !r.store.loading && r.result == reply && r.store.subjects == st.subjects
    ensures reply.Rejected? ==> r.store == Failed(st, "Failed to delete teacher")
    ensures reply.Resolved? ==>
              r.store.error.None?
              && (forall t :: t in r.store.teachers <==> t in st.teachers && t.id != id)
              && (forall a :: a in r.store.assignments <==> a in st.assignments && a.teacherId != Some(id))
  {
    match reply
    case Rejected(_) => Outcome(Failed(st, "Failed to delete teacher"), reply)
    case Resolved(_) =>
      Outcome(st.(teachers := Filter(OtherTeacher(id), st.teachers),
                  assignments := Filter(NotTaughtBy(id), st.assignments),
                  loading := false, error := None), reply)
  }

  /** Deleting keeps the survivors in order: deleting a teacher from a store
      whose teachers and assignments are each split in two is deleting from
      each part. */
  lemma DeleteTeacherKeepsOrder(st: Store, id: string, i: nat, j: nat)
    requires i <= |st.teachers| && j <= |st.assignments|
    ensures var r := DeleteTeacher(st, id, Resolved(())).store;
            var front := DeleteTeacher(st.(teachers := st.teachers[..i], assignments := st.assignments[..j]),
                                       id, Resolved(())).store;
            var back := DeleteTeacher(st.(teachers := st.teachers[i..], assignments := st.assignments[j..]),
                                      id, Resolved(())).store;
            r.teachers == front.teachers + back.teachers && r.assignments == front.assignments + back.assignments
  {
    assert st.teachers == st.teachers[..i] + st.teachers[i..];
    assert st.assignments == st.assignments[..j] + st.assignments[j..];
    FilterAppend(OtherTeacher(id), st.teachers[..i], st.teachers[i..]);
    FilterAppend(NotTaughtBy(id), st.assignments[..j], st.assignments[j..]);
  }

  /** `{ ...t, ...patch }`. */
  function MergeTeacher(t: Teacher, p: TeacherPatch): Teacher {
    Teacher(p.id.GetOr(t.id), p.name.GetOr(t.name), p.username.GetOr(t.username),
            p.department.GetOr(t.department), p.subjects.GetOr(t.subjects),
            p.hasSetPassword.GetOr(t.hasSetPassword))
  }

  /** `updateTeacher`: what the server returns is merged into the teachers
      with that id; the others, the order and the length are kept. */
  function UpdateTeacher(st: Store, id: string, reply: Settled<TeacherPatch>): (r: Outcome)
    ensures !r.store.loading && r.store.assignments == st.assignments && r.store.subjects == st.subjects
    ensures reply.Rejected? ==>
              r == Outcome(Failed(st, "Failed to update teacher"), Rejected(reply.message))
    ensures reply.Resolved? ==>
              r.result.Resolved? && r.store.error.None? && |r.store.teachers| == |st.teachers|
              && (forall i :: 0 <= i < |st.teachers| && st.teachers[i].id == id ==>
                    r.store.teachers[i] == MergeTeacher(st.teachers[i], reply.value))
              && (forall i :: 0 <= i < |st.teachers| && st.teachers[i].id != id ==>
                    r.store.teachers[i] == st.teachers[i])
  {
    match reply
    case Rejected(m) => Outcome(Failed(st, "Failed to update teacher"), Rejected(m))
    case Resolved(p) =>
      var ts := st.teachers;
      Outcome(st.(teachers := seq(|ts|, i requires 0 <= i < |ts| =>
                                    if ts[i].id == id then MergeTeacher(ts[i], p) else ts[i]),
                  loading := false, error := None),
              Resolved(()))
  }

  /** Applying the same reply to the same id twice is applying it once. */
  lemma UpdateTeacherIdempotent(st: Store, id: string, p: TeacherPatch)
    ensures var once := UpdateTeacher(st, id, Resolved(p));
            UpdateTeacher(once.store, id, Resolved(p)) == once
  {
    var once := UpdateTeacher(st, id, Resolved(p));
    var twice := UpdateTeacher(once.store, id, Resolved(p));
    forall i | 0 <= i < |st.teachers| ensures twice.store.teachers[i] == once.store.teachers[i] {
      if st.teachers[i].id == id && once.store.teachers[i].id == id {
        assert MergeTeacher(MergeTeacher(st.teachers[i], p), p) == MergeTeacher(st.teachers[i], p);
      }
    }
  }

  function AssignmentIs(id: string): Assignment -> bool {
    (a: Assignment) => a.id == id
  }

  function OtherAssignment(id: string): Assignment -> bool {
    (a: Assignment) => a.id != id
  }

  /** The subject an assignment belongs to, as the lookup asks for it. */
  function SubjectOf(a: Assignment): Request {
    Request("", a.subjectCode, a.subjectName, a.department, a.semester, a.className, a.isLab)
  }

  /** `removeSubjectAssignment`: the assignment must be known, and so must
      its subject (by code, department and semester); then the server is
      asked to drop the teacher, and on success every assignment with that
      id goes. */
  function RemoveSubjectAssignment(st: Store, assignmentId: string, reply: Settled<()>): (r: Outcome)
    ensures !r.store.loading && r.store.teachers == st.teachers && r.store.subjects == st.subjects
    ensures (forall i :: 0 <= i < |st.assignments| ==> st.assignments[i].id != assignmentId) ==>
              r == Outcome(Failed(st, "Failed to remove subject assignment"), Rejected("Assignment not found"))
    ensures var found := Find(AssignmentIs(assignmentId), st.assignments);
            found.Some? && !KnownSubject(st, SubjectOf(found.value)) ==>
              r == Outcome(Failed(st, "Failed to remove subject assignment"), Rejected("Subject not found"))
    ensures var found := Find(AssignmentIs(assignmentId), st.assignments);
            found.Some? && KnownSubject(st, SubjectOf(found.value)) ==> r.result == reply
    ensures r.result.Rejected? ==>
              r.store.assignments == st.assignments
              && r.store.error == Some("Failed to remove subject assignment")
    ensures r.result.Resolved? ==>
              reply.Resolved? && r.store.error.None?
              && (exists i :: 0 <= i < |st.assignments| && st.assignments[i].id == assignmentId)
              && forall a :: a in r.store.assignments <==> a in st.assignments && a.id != assignmentId
  {
    match Find(AssignmentIs(assignmentId), st.assignments)
    case None => Outcome(Failed(st, "Failed to remove subject assignment"), Rejected("Assignment not found"))
    case Some(a) =>
      match Find(SubjectFor(SubjectOf(a)), st.subjects)
      case None => Outcome(Failed(st, "Failed to remove subject assignment"), Rejected("Subject not found"))
      case Some(_) =>
        if reply.Rejected? then Outcome(Failed(st, "Failed to remove subject assignment"), reply)
        else
          Outcome(st.(assignments := Filter(OtherAssignment(assignmentId), st.assignments),
                      loading := false, error := None), reply)
  }

  /** A removed assignment is gone: removing it again is refused. */
  lemma RemoveTwiceRefused(st: Store, assignmentId: string, reply: Settled<()>, reply2: Settled<()>)
    requires RemoveSubjectAssignment(st, assignmentId, reply).result.Resolved?
    ensures RemoveSubjectAssignment(RemoveSubjectAssignment(st, assignmentId, reply).store, assignmentId, reply2).result
         == Rejected("Assignment not found")
  {
    var r := RemoveSubjectAssignment(st, assignmentId, reply).store;
    forall i | 0 <= i < |r.assignments| ensures r.assignments[i].id != assignmentId {
      assert r.assignments[i] in r.assignments;
    }
  }

  // ---------------------------------------------------------------------
  // getTeacherAssignments
  // ---------------------------------------------------------------------

  function TaughtBy(id: string): Assignment -> bool {
    (a: Assignment) => a.teacherId == Some(id)
  }

  /** The first teacher record with the assignment's teacher id, if any. */
  function RecordOf(ts: seq<Teacher>, a: Assignment): Option<Teacher> {
    if a.teacherId.Some? then Find(TeacherIs(a.teacherId.value), ts) else None
  }

  /** Whether that record has a non-empty name (username). */
  predicate RecordNamed(ts: seq<Teacher>, a: Assignment) {
    RecordOf(ts, a).Some? && RecordOf(ts, a).value.name != ""
  }

  predicate RecordUsernamed(ts: seq<Teacher>, a: Assignment) {
    RecordOf(ts, a).Some? && RecordOf(ts, a).value.username != ""
  }

  /** The names shown for an assignment: the teacher record's, else the
      stored ones, else "Unknown Teacher" and "". Nothing else changes. */
  function WithNames(ts: seq<Teacher>, a: Assignment): (r: Assignment)
    ensures r.(teacherName := a.teacherName, teacherUsername := a.teacherUsername) == a
    ensures RecordNamed(ts, a) ==> r.teacherName == Some(RecordOf(ts, a).value.name)
    ensures !RecordNamed(ts, a) && Truthy(a.teacherName) ==> r.teacherName == a.teacherName
    ensures !RecordNamed(ts, a) && !Truthy(a.teacherName) ==> r.teacherName == Some("Unknown Teacher")
    ensures RecordUsernamed(ts, a) ==> r.teacherUsername == Some(RecordOf(ts, a).value.username)
    ensures !RecordUsernamed(ts, a) && Truthy(a.teacherUsername) ==> r.teacherUsername == a.teacherUsername
    ensures !RecordUsernamed(ts, a) && !Truthy(a.teacherUsername) ==> r.teacherUsername == Some("")
    ensures r.teacherName.Some? && r.teacherName.value != ""
  {
    var t := RecordOf(ts, a);
    var name := if t.Some? && t.value.name != "" then t.value.name
                else OrDefault(a.teacherName, "Unknown Teacher");
    var username := if t.Some? && t.value.username != "" then t.value.username
                    else OrDefault(a.teacherUsername, "");
    a.(teacherName := Some(name), teacherUsername := Some(username))
  }

  /** Filling in the names twice is filling them in once. */
  lemma WithNamesIdempotent(ts: seq<Teacher>, a: Assignment)
    ensures WithNames(ts, WithNames(ts, a)) == WithNames(ts, a)
  {
    var once := WithNames(ts, a);
    assert RecordOf(ts, once) == RecordOf(ts, a);
  }

  /** `getTeacherAssignments`: that teacher's assignments, in order, each
      with the names filled in. */
  function GetTeacherAssignments(st: Store, teacherId: string): (r: seq<Assignment>)
    ensures |r| == |Filter(TaughtBy(teacherId), st.assignments)|
    ensures forall i :: 0 <= i < |r| ==>
              r[i] == WithNames(st.teachers, Filter(TaughtBy(teacherId), st.assignments)[i])
              && r[i].teacherId == Some(teacherId)
  {
    var mine := Filter(TaughtBy(teacherId), st.assignments);
    seq(|mine|, i requires 0 <= i < |mine| => WithNames(st.teachers, mine[i]))
  }

  /** With no teacher record and no stored name, an assignment is shown as
      taught by "Unknown Teacher". */
  lemma UnknownTeacherFallback(ts: seq<Teacher>, a: Assignment)
    requires a.teacherId.Some? && forall i :: 0 <= i < |ts| ==> ts[i].id != a.teacherId.value
    requires a.teacherName.None? || a.teacherName == Some("")
    ensures WithNames(ts, a).teacherName == Some("Unknown Teacher")
  {
  }

  /** The names shown for an assignment depend only on which record is
      found for its teacher. */
  lemma SameRecordSameNames(ts: seq<Teacher>, us: seq<Teacher>, a: Assignment)
    requires a.teacherId.Some?
    requires Find(TeacherIs(a.teacherId.value), ts) == Find(TeacherIs(a.teacherId.value), us)
    ensures WithNames(ts, a) == WithNames(us, a)
  {
    assert RecordOf(ts, a) == RecordOf(us, a);
  }

  /** Deleting a teacher leaves every other teacher's assignments, as the
      pages show them, exactly as they were. */
  lemma DeleteTeacherSparesOthers(st: Store, id: string, other: string)
    requires other != id
    ensures GetTeacherAssignments(DeleteTeacher(st, id, Resolved(())).store, other)
         == GetTeacherAssignments(st, other)
  {
    var after := DeleteTeacher(st, id, Resolved(())).store;
    assert forall a :: TaughtBy(other)(a) ==> NotTaughtBy(id)(a);
    assert forall t :: TeacherIs(other)(t) ==> OtherTeacher(id)(t);
    FilterAfterFilter(TaughtBy(other), NotTaughtBy(id), st.assignments);
    FindAfterFilter(TeacherIs(other), OtherTeacher(id), st.teachers);
    var mine := Filter(TaughtBy(other), st.assignments);
    assert Filter(TaughtBy(other), after.assignments) == mine;
    var before := GetTeacherAssignments(st, other);
    var now := GetTeacherAssignments(after, other);
    forall i | 0 <= i < |mine| ensures now[i] == before[i] {
      assert mine[i].teacherId == Some(other);
      SameRecordSameNames(after.teachers, st.teachers, mine[i]);
    }
  }

  /** After deleting a teacher, no assignment of theirs is left. */
  lemma DeleteTeacherCascades(st: Store, id: string)
    ensures GetTeacherAssignments(DeleteTeacher(st, id, Resolved(())).store, id) == []
  {
    var after := DeleteTeacher(st, id, Resolved(())).store;
    forall k | 0 <= k < |after.assignments| ensures !TaughtBy(id)(after.assignments[k]) {
      assert after.assignments[k] in after.assignments;
    }
    FilterNoneKept(TaughtBy(id), after.assignments);
  }
}
