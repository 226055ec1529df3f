/** The subject endpoints (`subjectController`) over an in-memory database:
    creating a subject, and adding a teacher to or removing one from a
    subject. Each handler maps a request and the database to a status, a
    body and the database afterwards. Fresh document ids are parameters. */
module SubjectController {
  import opened Js
  import opened Seqs
  import opened SubjectModel

  /** The fields of a teacher document the handlers read. */
  datatype Teacher = Teacher(name: Option<string>, username: Option<string>)

  datatype Db = Db(subjects: map<string, Subject>, teachers: map<string, Teacher>)

  datatype Body = Doc(subject: Subject) | Message(text: string)

  datatype Response = Response(db: Db, status: int, body: Body)

  /** The `code` of the request, when given, is already taken. A request
      without a code matches no stored subject. */
  predicate CodeTaken(db: Db, code: Option<string>) {
    code.Some? && exists id :: id in db.subjects && db.subjects[id].code == code.value
  }

  /** `createSubject`: a taken code is refused with 400 and nothing stored;
      a request the schema rejects gets 500; otherwise the new subject is
      stored under the fresh id and returned with 201. */
  function CreateSubject(db: Db, f: Fields, freshId: string): (r: Response)
    requires freshId !in db.subjects
    ensures CodeTaken(db, f.code) ==>
              r == Response(db, 400, Message("Subject with this code already exists"))
    ensures !CodeTaken(db, f.code) && Build(f).None? ==>
              r == Response(db, 500, Message("Failed to create subject"))
    ensures r.status == 201 <==> !CodeTaken(db, f.code) && Build(f).Some?
    ensures r.status == 201 ==>
              r.body.Doc? && r.body.subject.code == f.code.value
              && r.body.subject.teachers == [] && r.body.subject.teacherDetails == []
              && (r.body.subject.isLab <==> f.isLab == Some(true))
              && r.db == db.(subjects := db.subjects[freshId := r.body.subject])
  {
    if CodeTaken(db, f.code) then Response(db, 400, Message("Subject with this code already exists"))
    else match Build(f.(isLab := Some(OrFalse(f.isLab))))
      case None => Response(db, 500, Message("Failed to create subject"))
      case Some(s) => Response(db.(subjects := db.subjects[freshId := s]), 201, Doc(s))
  }

  /** `assignTeacher`. In order: both ids are required (400), the subject
      must exist (404), the teacher must exist (404), and the teacher must
      not be on the subject yet (400). Then the id joins `teachers` and one
      detail joins `teacherDetails`, the names given in the request winning
      over the teacher's own. */
  function AssignTeacher(db: Db, subjectId: Option<string>, teacherId: Option<string>,
                         teacherName: Option<string>, teacherUsername: Option<string>): (r: Response)
    ensures !Truthy(subjectId) || !Truthy(teacherId) ==>
              r == Response(db, 400, Message("Subject ID and Teacher ID are required"))
    ensures Truthy(subjectId) && Truthy(teacherId) && subjectId.value !in db.subjects ==>
              r == Response(db, 404, Message("Subject not found"))
    ensures Truthy(subjectId) && Truthy(teacherId) && subjectId.value in db.subjects
            && teacherId.value !in db.teachers ==>
              r == Response(db, 404, Message("Teacher not found"))
    ensures Truthy(subjectId) && Truthy(teacherId) && subjectId.value in db.subjects
            && teacherId.value in db.teachers && teacherId.value in db.subjects[subjectId.value].teachers ==>
              r == Response(db, 400, Message("Teacher is already assigned to this subject"))
    ensures r.status == 200 ==>
              var s := db.subjects[subjectId.value];
              var t := db.teachers[teacherId.value];
              teacherId.value !in s.teachers && r.body.Doc?
              && r.db == db.(subjects := db.subjects[subjectId.value := r.body.subject])
              && r.body.subject.teachers == s.teachers + [teacherId.value]
              && r.body.subject.teacherDetails
                 == s.teacherDetails + [TeacherDetail(teacherId.value, Or(teacherName, t.name),
                                                      Or(teacherUsername, t.username))]
              && r.body.subject.(teachers := s.teachers, teacherDetails := s.teacherDetails) == s
    ensures Truthy(subjectId) && Truthy(teacherId) && subjectId.value in db.subjects
            && teacherId.value in db.teachers && teacherId.value !in db.subjects[subjectId.value].teachers ==>
              r.status == 200
    ensures r.status != 200 ==> r.db == db
  {
    if !Truthy(subjectId) || !Truthy(teacherId) then
      Response(db, 400, Message("Subject ID and Teacher ID are required"))
    else if subjectId.value !in db.subjects then Response(db, 404, Message("Subject not found"))
    else if teacherId.value !in db.teachers then Response(db, 404, Message("Teacher not found"))
    else
      var s := db.subjects[subjectId.value];
      var t := db.teachers[teacherId.value];
      if teacherId.value in s.teachers then
        Response(db, 400, Message("Teacher is already assigned to this subject"))
      else
        var detail := TeacherDetail(teacherId.value, Or(teacherName, t.name), Or(teacherUsername, t.username));
        var s' := s.(teachers := s.teachers + [teacherId.value], teacherDetails := s.teacherDetails + [detail]);
        Response(db.(subjects := db.subjects[subjectId.value := s']), 200, Doc(s'))
  }

  function OtherId(t: string): string -> bool {
    (id: string) => id != t
  }

  function OtherDetail(t: string): TeacherDetail -> bool {
    (d: TeacherDetail) => d.teacherId != t
  }

  function DropTeacher(s: Subject, teacherId: string): Subject {
    s.(teachers := Filter(OtherId(teacherId), s.teachers),
       teacherDetails := Filter(OtherDetail(teacherId), s.teacherDetails))
  }

  /** `removeTeacher`: both ids are required (400) and the subject must
      exist (404); then every occurrence of the teacher leaves both lists and
      everything else stays. An absent teacher is no error. */
  function RemoveTeacher(db: Db, subjectId: Option<string>, teacherId: Option<string>): (r: Response)
    ensures !Truthy(subjectId) || !Truthy(teacherId) ==>
              r == Response(db, 400, Message("Subject ID and Teacher ID are required"))
    ensures Truthy(subjectId) && Truthy(teacherId) && subjectId.value !in db.subjects ==>
              r == Response(db, 404, Message("Subject not found"))
    ensures r.status == 200 <==> Truthy(subjectId) && Truthy(teacherId) && subjectId.value in db.subjects
    ensures r.status == 200 ==>
              var s := db.subjects[subjectId.value];
              r.body.Doc? && r.db == db.(subjects := db.subjects[subjectId.value := r.body.subject])
              && (forall id :: id in r.body.subject.teachers <==> id in s.teachers && id != teacherId.value)
              && (forall d :: d in r.body.subject.teacherDetails <==>
                                d in s.teacherDetails && d.teacherId != teacherId.value)
              && r.body.subject.(teachers := s.teachers, teacherDetails := s.teacherDetails) == s
    ensures Truthy(subjectId) && Truthy(teacherId) && subjectId.value in db.subjects
            && teacherId.value in db.teachers && teacherId.value !in db.subjects[subjectId.value].teachers ==>
              r.status == 200
    ensures r.status != 200 ==> r.db == db
  {
    if !Truthy(subjectId) || !Truthy(teacherId) then
      Response(db, 400, Message("Subject ID and Teacher ID are required"))
    else if subjectId.value !in db.subjects then Response(db, 404, Message("Subject not found"))
    else
      var s' := DropTeacher(db.subjects[subjectId.value], teacherId.value);
      Response(db.(subjects := db.subjects[subjectId.value := s']), 200, Doc(s'))
  }

  /** Creating a subject never breaks the uniqueness of codes. */
  lemma CreateKeepsCodesUnique(db: Db, f: Fields, freshId: string)
    requires freshId !in db.subjects && CodesUnique(db.subjects)
    ensures CodesUnique(CreateSubject(db, f, freshId).db.subjects)
  {
    var r := CreateSubject(db, f, freshId);
    if r.status == 201 {
      assert f.code.Some?;
      forall a | a in db.subjects ensures db.subjects[a].code != f.code.value {
        assert !CodeTaken(db, f.code);
      }
    }
  }

  /** Adding or removing teachers never touches a code, so it keeps codes
      unique. */
  lemma TeacherChangesKeepCodesUnique(db: Db, subjectId: Option<string>, teacherId: Option<string>,
                                      teacherName: Option<string>, teacherUsername: Option<string>)
    requires CodesUnique(db.subjects)
    ensures CodesUnique(AssignTeacher(db, subjectId, teacherId, teacherName, teacherUsername).db.subjects)
    ensures CodesUnique(RemoveTeacher(db, subjectId, teacherId).db.subjects)
  {
    var a := AssignTeacher(db, subjectId, teacherId, teacherName, teacherUsername);
    if a.status == 200 {
      assert a.body.subject.code == db.subjects[subjectId.value].code;
    }
    var r := RemoveTeacher(db, subjectId, teacherId);
    if r.status == 200 {
      assert r.body.subject.code == db.subjects[subjectId.value].code;
    }
  }

  /** Filtering both lists by the same teacher keeps them paired. */
  lemma FilterKeepsPaired(ids: seq<string>, details: seq<TeacherDetail>, t: string)
    requires Paired(ids, details)
    ensures Paired(Filter(OtherId(t), ids), Filter(OtherDetail(t), details))
  {
    var key := (d: TeacherDetail) => d.teacherId;
    FilterKeepsMatched(key, OtherId(t), OtherDetail(t), ids, details);
  }

  /** The two teacher lists stay paired through every teacher change. */
  lemma TeacherChangesKeepAligned(db: Db, subjectId: Option<string>, teacherId: Option<string>,
                                  teacherName: Option<string>, teacherUsername: Option<string>)
    requires forall id :: id in db.subjects ==> Aligned(db.subjects[id])
    ensures var r := AssignTeacher(db, subjectId, teacherId, teacherName, teacherUsername);
            forall id :: id in r.db.subjects ==> Aligned(r.db.subjects[id])
    ensures var r := RemoveTeacher(db, subjectId, teacherId);
            forall id :: id in r.db.subjects ==> Aligned(r.db.subjects[id])
  {
    var r := RemoveTeacher(db, subjectId, teacherId);
    if r.status == 200 {
      var s := db.subjects[subjectId.value];
      FilterKeepsPaired(s.teachers, s.teacherDetails, teacherId.value);
    }
  }

  /** Removing a teacher twice is removing it once. */
  lemma RemoveIdempotent(db: Db, subjectId: Option<string>, teacherId: Option<string>)
    ensures var once := RemoveTeacher(db, subjectId, teacherId);
            RemoveTeacher(once.db, subjectId, teacherId) == once
  {
    var once := RemoveTeacher(db, subjectId, teacherId);
    if once.status == 200 {
      var s := db.subjects[subjectId.value];
      var dropped := DropTeacher(s, teacherId.value);
      assert once.db.subjects == db.subjects[subjectId.value := dropped];
      FilterIdempotent(OtherId(teacherId.value), s.teachers);
      FilterIdempotent(OtherDetail(teacherId.value), s.teacherDetails);
      assert DropTeacher(dropped, teacherId.value) == dropped;
      assert once.db.subjects[subjectId.value := dropped] == once.db.subjects;
    }
  }

  /** Dropping a teacher who was appended to an aligned subject that did not
      have it restores the subject. */
  lemma DropAfterAppend(s: Subject, t: string, d: TeacherDetail)
    requires Aligned(s) && t !in s.teachers && d.teacherId == t
    ensures DropTeacher(s.(teachers := s.teachers + [t], teacherDetails := s.teacherDetails + [d]), t) == s
  {
    assert forall i :: 0 <= i < |s.teachers| ==> OtherId(t)(s.teachers[i]);
    FilterDropsAppended(OtherId(t), s.teachers, t);
    assert forall i :: 0 <= i < |s.teacherDetails| ==> OtherDetail(t)(s.teacherDetails[i]);
    FilterDropsAppended(OtherDetail(t), s.teacherDetails, d);
  }

  /** Assigning a teacher and then removing it gives the database back as it
      was. */
  lemma RemoveUndoesAssign(db: Db, subjectId: Option<string>, teacherId: Option<string>,
                           teacherName: Option<string>, teacherUsername: Option<string>)
    requires subjectId.Some? && subjectId.value in db.subjects && Aligned(db.subjects[subjectId.value])
    requires AssignTeacher(db, subjectId, teacherId, teacherName, teacherUsername).status == 200
    ensures RemoveTeacher(AssignTeacher(db, subjectId, teacherId, teacherName, teacherUsername).db,
                          subjectId, teacherId).db == db
  {
    var s := db.subjects[subjectId.value];
    var a := AssignTeacher(db, subjectId, teacherId, teacherName, teacherUsername);
    var d := a.body.subject.teacherDetails[|s.teacherDetails|];
    assert a.body.subject == s.(teachers := s.teachers + [teacherId.value],
                                teacherDetails := s.teacherDetails + [d]);
    DropAfterAppend(s, teacherId.value, d);
    assert db.subjects[subjectId.value := s] == db.subjects;
  }
}
