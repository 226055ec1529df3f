/** The stored subject record (`Subject` schema): which fields a subject
    must have, the `isLab` default, and the two teacher lists. */
module SubjectModel {
  import opened Js

  /** One entry of `teacherDetails`: the teacher's id with the name and
      username recorded at assignment time. */
  datatype TeacherDetail = TeacherDetail(teacherId: string, name: Option<string>, username: Option<string>)

  datatype Subject = Subject(
    code: string,
    name: string,
    department: string,
    semester: int,
    isLab: bool,
    teachers: seq<string>,
    teacherDetails: seq<TeacherDetail>)

  /** The values a new subject is created from; any may be missing. */
  datatype Fields = Fields(
    code: Option<string>,
    name: Option<string>,
    department: Option<string>,
    semester: Option<int>,
    isLab: Option<bool>)

  /** A required text field passes validation when it is present and not
      empty. */
  predicate Given(s: Option<string>) {
    s.Some? && s.value != ""
  }

  /** Validation and defaults: the document, or nothing when a required
      field is missing. `isLab` is false unless given, and both teacher
      lists start empty. */
  function Build(f: Fields): (r: Option<Subject>)
    ensures r.Some? <==> Given(f.code) && Given(f.name) && Given(f.department) && f.semester.Some?
    ensures r.Some? ==>
              r.value.code == f.code.value && r.value.name == f.name.value
              && r.value.department == f.department.value && r.value.semester == f.semester.value
    ensures r.Some? ==> (r.value.isLab <==> f.isLab == Some(true))
    ensures r.Some? ==> r.value.teachers == [] && r.value.teacherDetails == []
  {
    if Given(f.code) && Given(f.name) && Given(f.department) && f.semester.Some? then
      Some(Subject(f.code.value, f.name.value, f.department.value, f.semester.value,
                   f.isLab.GetOr(false), [], []))
    else None
  }

  /** The unique index on `code`: no two stored subjects share one. */
  predicate CodesUnique(db: map<string, Subject>) {
    forall a, b :: a in db && b in db && a != b ==> db[a].code != db[b].code
  }

  /** The two teacher lists move together: the i-th detail belongs to the
      i-th teacher id. */
  predicate Paired(ids: seq<string>, details: seq<TeacherDetail>) {
    |ids| == |details| && forall i :: 0 <= i < |ids| ==> details[i].teacherId == ids[i]
  }

  predicate Aligned(s: Subject) {
    Paired(s.teachers, s.teacherDetails)
  }
}
