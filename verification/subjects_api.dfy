/** The client's subject requests (`lib/api/subjects`): how the subjects the
    server returns are reshaped for the pages, and what a create request
    sends. The HTTP calls themselves are left out. */
module SubjectsApi {
  import opened Js

  /** An element of a subject's `teachers` list as it arrives: a bare id when
      the server did not look the teachers up, or the teacher document
      (`_id`, maybe `id`, name, username) when it did. A bare id has none of
      those properties. */
  datatype TeacherEntry =
    | Ref(oid: string)
    | Doc(mongoId: Option<string>, id: Option<string>, name: Option<string>, username: Option<string>)

  function EntryMongoId(e: TeacherEntry): Option<string> {
    if e.Doc? then e.mongoId else None
  }

  function EntryId(e: TeacherEntry): Option<string> {
    if e.Doc? then e.id else None
  }

  function EntryName(e: TeacherEntry): Option<string> {
    if e.Doc? then e.name else None
  }

  function EntryUsername(e: TeacherEntry): Option<string> {
    if e.Doc? then e.username else None
  }

  /** One `teacherDetails` entry as the pages see it. */
  datatype Detail = Detail(teacherId: Option<string>, name: Option<string>, username: Option<string>)

  /** A subject as the server sends it and as the client keeps it. Only the
      fields the application reads are named; the spread copies every other
      field unchanged. `class` is not part of the stored record but is read
      when present. */
  datatype ServerSubject = ServerSubject(
    mongoId: Option<string>,
    id: Option<string>,
    code: string,
    name: string,
    department: string,
    semester: int,
    className: Option<string>,
    isLab: Option<bool>,
    teachers: Option<seq<TeacherEntry>>,
    teacherDetails: Option<seq<Detail>>)

  /** `teacher.id || teacher._id`. */
  function DetailOf(e: TeacherEntry): (d: Detail)
    ensures Truthy(EntryId(e)) ==> d.teacherId == EntryId(e)
    ensures !Truthy(EntryId(e)) ==> d.teacherId == EntryMongoId(e)
    ensures d.name == EntryName(e) && d.username == EntryUsername(e)
  {
    Detail(Or(EntryId(e), EntryMongoId(e)), EntryName(e), EntryUsername(e))
  }

  /** `getAllSubjects`, per subject: the id becomes `_id || id`, and
      `teacherDetails` is rebuilt from `teachers` (one entry per teacher, in
      order, none when the list is missing), replacing what was stored.
      Every other field is kept. */
  function AllSubjectsView(s: ServerSubject): (r: ServerSubject)
    ensures Truthy(s.mongoId) ==> r.id == s.mongoId
    ensures !Truthy(s.mongoId) ==> r.id == s.id
    ensures r.teacherDetails.Some?
    ensures s.teachers.None? ==> r.teacherDetails.value == []
    ensures s.teachers.Some? ==>
              |r.teacherDetails.value| == |s.teachers.value|
              && forall i :: 0 <= i < |s.teachers.value| ==>
                   r.teacherDetails.value[i] == DetailOf(s.teachers.value[i])
    ensures r.(id := s.id, teacherDetails := s.teacherDetails) == s
  {
    var details := match s.teachers
      case None => []
      case Some(ts) => seq(|ts|, i requires 0 <= i < |ts| => DetailOf(ts[i]));
    s.(id := Or(s.mongoId, s.id), teacherDetails := Some(details))
  }

  /** `getAllSubjects` on the whole list: one view per subject, in order. */
  function AllSubjects(ss: seq<ServerSubject>): (r: seq<ServerSubject>)
    ensures |r| == |ss|
    ensures forall i :: 0 <= i < |ss| ==> r[i] == AllSubjectsView(ss[i])
  {
    seq(|ss|, i requires 0 <= i < |ss| => AllSubjectsView(ss[i]))
  }

  /** `{ id: teacher.id || teacher._id, name, username }`: a document with
      no `_id`. */
  function TeacherRefOf(e: TeacherEntry): (r: TeacherEntry)
    ensures r.Doc? && r.mongoId.None?
    ensures Truthy(EntryId(e)) ==> r.id == EntryId(e)
    ensures !Truthy(EntryId(e)) ==> r.id == EntryMongoId(e)
    ensures r.name == EntryName(e) && r.username == EntryUsername(e)
  {
    Doc(None, Or(EntryId(e), EntryMongoId(e)), EntryName(e), EntryUsername(e))
  }

  /** `getTeacherSubjects`, per subject: the id becomes `_id || id`, and
      `teachers` is rewritten to `{id, name, username}` entries, in order,
      or empty when missing. Every other field is kept. */
  function TeacherSubjectsView(s: ServerSubject): (r: ServerSubject)
    ensures Truthy(s.mongoId) ==> r.id == s.mongoId
    ensures !Truthy(s.mongoId) ==> r.id == s.id
    ensures r.teachers.Some?
    ensures s.teachers.None? ==> r.teachers.value == []
    ensures s.teachers.Some? ==>
              |r.teachers.value| == |s.teachers.value|
              && forall i :: 0 <= i < |s.teachers.value| ==>
                   r.teachers.value[i] == TeacherRefOf(s.teachers.value[i])
    ensures r.(id := s.id, teachers := s.teachers) == s
  {
    var ts := match s.teachers
      case None => []
      case Some(ts) => seq(|ts|, i requires 0 <= i < |ts| => TeacherRefOf(ts[i]));
    s.(id := Or(s.mongoId, s.id), teachers := Some(ts))
  }

  /** When the server sends bare teacher ids, the reshaped entries carry no
      id at all: the id has nowhere to be read from. */
  lemma BareIdsAreLost(s: ServerSubject, i: nat)
    requires s.teachers.Some? && i < |s.teachers.value| && s.teachers.value[i].Ref?
    ensures TeacherSubjectsView(s).teachers.value[i].id.None?
    ensures AllSubjectsView(s).teacherDetails.value[i].teacherId.None?
  {
  }

  /** The two reshapings agree on who teaches a subject: the detail and the
      rewritten teacher at the same position carry the same id, name and
      username. */
  lemma ViewsAgreeOnTeachers(s: ServerSubject, i: nat)
    requires s.teachers.Some? && i < |s.teachers.value|
    ensures var d := AllSubjectsView(s).teacherDetails.value[i];
            var t := TeacherSubjectsView(s).teachers.value[i];
            d.teacherId == t.id && d.name == t.name && d.username == t.username
  {
  }

  /** What the create form holds. */
  datatype NewSubject = NewSubject(code: string, name: string, department: string, semester: int,
                                   isLab: Option<bool>)

  /** The body of the create request: exactly these five fields. */
  datatype CreatePayload = CreatePayload(code: string, name: string, department: string, semester: int,
                                         isLab: bool)

  /** `createSubject`: the form's fields pass through and `isLab` is false
      unless it was set. */
  function CreateRequest(s: NewSubject): (p: CreatePayload)
    ensures p.code == s.code && p.name == s.name && p.department == s.department
    ensures p.semester == s.semester
    ensures p.isLab <==> s.isLab == Some(true)
  {
    CreatePayload(s.code, s.name, s.department, s.semester, OrFalse(s.isLab))
  }
}
