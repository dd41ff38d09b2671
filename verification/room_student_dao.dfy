/**
 * The student table of the current schema (`StudentEntity`) and its DAO. This
 * schema declares no foreign key from students to courses, so course rows and
 * student rows change independently.
 */
module RoomStudentDao {
  import opened Common
  import opened Names
  import opened Tables

  /** The five columns the view model reads and writes. */
  datatype StudentEntity = StudentEntity(id: int, name: string, email: string, phone: string, courseId: int)

  function EntityId(s: StudentEntity): int { s.id }

  function EntityName(s: StudentEntity): string { s.name }

  ghost predicate WellKeyed(rows: map<int, StudentEntity>) {
    Keyed(rows, EntityId)
  }

  /** The rows of one course. */
  function OfCourse(rows: map<int, StudentEntity>, courseId: int): map<int, StudentEntity> {
    map k | k in rows && rows[k].courseId == courseId :: rows[k]
  }

  /** `getStudentsByCourse`: exactly the rows of that course, each once, ascending by name. */
  function StudentsByCourse(rows: map<int, StudentEntity>, courseId: int): (r: seq<StudentEntity>)
    requires WellKeyed(rows)
    ensures forall i | 0 <= i < |r| :: r[i].courseId == courseId && r[i].id in rows && rows[r[i].id] == r[i]
    ensures forall k | k in rows && rows[k].courseId == courseId :: rows[k] in r
    ensures forall i, j | 0 <= i < j < |r| :: r[i].id != r[j].id
    ensures forall i, j | 0 <= i < j < |r| :: NameLe(r[i].name, r[j].name)
  {
    OfCourseFacts(rows, courseId);
    var r := SortedRows(OfCourse(rows, courseId), EntityId, EntityName);
    SliceListingFacts(rows, courseId, r);
    r
  }

  lemma SliceListingFacts(rows: map<int, StudentEntity>, courseId: int, r: seq<StudentEntity>)
    requires WellKeyed(rows)
    requires WellKeyed(OfCourse(rows, courseId))
    requires r == SortedRows(OfCourse(rows, courseId), EntityId, EntityName)
    ensures forall i | 0 <= i < |r| :: r[i].courseId == courseId && r[i].id in rows && rows[r[i].id] == r[i]
    ensures forall k | k in rows && rows[k].courseId == courseId :: rows[k] in r
    ensures forall i, j | 0 <= i < j < |r| :: r[i].id != r[j].id
    ensures forall i, j | 0 <= i < j < |r| :: NameLe(r[i].name, r[j].name)
  {
    var slice := OfCourse(rows, courseId);
    forall i | 0 <= i < |r|
      ensures r[i].courseId == courseId && r[i].id in rows && rows[r[i].id] == r[i]
    {
      assert EntityId(r[i]) in slice && slice[EntityId(r[i])] == r[i];
    }
    forall k | k in rows && rows[k].courseId == courseId
      ensures rows[k] in r
    {
      assert k in slice && slice[k] == rows[k];
    }
    forall i, j | 0 <= i < j < |r|
      ensures r[i].id != r[j].id && NameLe(r[i].name, r[j].name)
    {
      assert EntityId(r[i]) != EntityId(r[j]);
      assert NameLe(EntityName(r[i]), EntityName(r[j]));
    }
  }

  lemma OfCourseFacts(rows: map<int, StudentEntity>, courseId: int)
    requires WellKeyed(rows)
    ensures WellKeyed(OfCourse(rows, courseId))
    ensures forall k :: k in OfCourse(rows, courseId) <==> k in rows && rows[k].courseId == courseId
    ensures forall k | k in OfCourse(rows, courseId) :: OfCourse(rows, courseId)[k] == rows[k]
  {
  }

  /** `getStudentById`: the row with that id, or null when the id is null or absent. */
  function StudentById(rows: map<int, StudentEntity>, studentId: Option<int>): (r: Option<StudentEntity>)
    requires WellKeyed(rows)
    ensures r.Some? <==> studentId.Some? && studentId.value in rows
    ensures r.Some? ==> r.value.id == studentId.value && r.value in rows.Values
  {
    if studentId.Some? && studentId.value in rows then Some(rows[studentId.value]) else None
  }

  /** The table after `insertStudents(students)` (REPLACE on a clashing id). */
  function WithStudents(rows: map<int, StudentEntity>, students: seq<StudentEntity>): (r: map<int, StudentEntity>)
    requires WellKeyed(rows)
    ensures WellKeyed(r)
  {
    UpsertKeyed(rows, students, EntityId);
    Upsert(rows, students, EntityId)
  }

  /** The table after `deleteStudent(studentId)`; `id = NULL` matches no row. */
  function WithoutStudent(rows: map<int, StudentEntity>, studentId: Option<int>): (r: map<int, StudentEntity>)
    ensures r.Keys == if studentId.Some? then rows.Keys - {studentId.value} else rows.Keys
    ensures forall k | k in r :: r[k] == rows[k]
  {
    if studentId.Some? then rows - {studentId.value} else rows
  }

  /** The table after `deleteStudentsByCourse(courseId)`. */
  function WithoutCourse(rows: map<int, StudentEntity>, courseId: int): (r: map<int, StudentEntity>)
    ensures forall k :: k in r <==> k in rows && rows[k].courseId != courseId
    ensures forall k | k in r :: r[k] == rows[k]
  {
    map k | k in rows && rows[k].courseId != courseId :: rows[k]
  }

  /**
   * `insertStudents` is an upsert by id: afterwards every listed id holds the last listed
   * student with that id, every other row is unchanged, and repeating the call changes nothing.
   */
  lemma InsertStudentsUpserts(rows: map<int, StudentEntity>, students: seq<StudentEntity>)
    requires WellKeyed(rows)
    ensures WithStudents(rows, students).Keys == rows.Keys + KeysOf(students, EntityId)
    ensures forall k | k in rows && k !in KeysOf(students, EntityId) :: WithStudents(rows, students)[k] == rows[k]
    ensures forall i | 0 <= i < |students| && LastOfKey(students, EntityId, i) ::
      WithStudents(rows, students)[students[i].id] == students[i]
    ensures WithStudents(WithStudents(rows, students), students) == WithStudents(rows, students)
  {
    UpsertSpec(rows, students, EntityId);
    UpsertIdempotent(rows, students, EntityId);
  }

  /** A deleted student is no longer found, and deleting an absent id changes nothing. */
  lemma DeleteStudentRemovesOnlyIt(rows: map<int, StudentEntity>, studentId: int)
    requires WellKeyed(rows)
    ensures StudentById(WithoutStudent(rows, Some(studentId)), Some(studentId)) == None
    ensures studentId !in rows ==> WithoutStudent(rows, Some(studentId)) == rows
  {
  }

  /**
   * After `deleteStudentsByCourse(c)` course `c` lists no student and every other
   * course lists exactly what it listed before.
   */
  lemma DeleteByCourseSeparatesCourses(rows: map<int, StudentEntity>, c: int, d: int)
    requires WellKeyed(rows)
    ensures WellKeyed(WithoutCourse(rows, c))
    ensures StudentsByCourse(WithoutCourse(rows, c), c) == []
    ensures d != c ==> StudentsByCourse(WithoutCourse(rows, c), d) == StudentsByCourse(rows, d)
  {
    var after := WithoutCourse(rows, c);
    assert OfCourse(after, c) == map[];
    if d != c {
      assert OfCourse(after, d) == OfCourse(rows, d);
    }
  }

  class StudentDao {
    var rows: map<int, StudentEntity>

    ghost predicate Valid()
      reads this
    {
      WellKeyed(rows)
    }

    constructor ()
      ensures Valid() && rows == map[]
    {
      rows := map[];
    }

    /** `insertStudents`. */
    method InsertStudents(students: seq<StudentEntity>)
      requires Valid()
      modifies this
      ensures Valid()
      ensures rows == WithStudents(old(rows), students)
    {
      rows := WithStudents(rows, students);
    }

    /** `insertStudent`: returns the row id, which is the primary key. */
    method InsertStudent(student: StudentEntity) returns (rowId: int)
      requires Valid()
      modifies this
      ensures Valid()
      ensures rows == WithStudents(old(rows), [student])
      ensures rowId == student.id
    {
      rows := WithStudents(rows, [student]);
      rowId := student.id;
    }

    /** `deleteStudent`. */
    method DeleteStudent(studentId: Option<int>)
      requires Valid()
      modifies this
      ensures Valid()
      ensures rows == WithoutStudent(old(rows), studentId)
    {
      rows := WithoutStudent(rows, studentId);
    }

    /** `deleteStudentsByCourse`. */
    method DeleteStudentsByCourse(courseId: int)
      requires Valid()
      modifies this
      ensures Valid()
      ensures rows == WithoutCourse(old(rows), courseId)
    {
      rows := WithoutCourse(rows, courseId);
    }
  }
}
