/**
 * The records of the legacy schema (`models/Course.kt`, `models/Student.kt`).
 * `isFromCache` and `lastSyncTimestamp` are not read by any modelled operation.
 */
module LegacyModels {
  import opened Common

  datatype Course = Course(
    id: Option<int>,
    name: string,
    description: string,
    imageUrl: Option<string>,
    schedule: string,
    professor: string
  )

  /** A student belongs to exactly one course: `courseId` is a non-null foreign key. */
  datatype Student = Student(id: Option<int>, name: string, email: string, phone: string, courseId: int)

  /** The primary key of a stored course (every stored row has one). */
  function CourseKey(c: Course): int { c.id.GetOr(0) }

  function CourseName(c: Course): string { c.name }

  function StudentKey(s: Student): int { s.id.GetOr(0) }

  function StudentName(s: Student): string { s.name }
}

/**
 * The legacy database: a course table and a student table whose `courseId` is a
 * foreign key to `courses.id` with ON DELETE CASCADE, plus one id counter per table
 * for rows inserted with a null id. The DAOs (`dao/CourseDao.kt`, `dao/StudentDao.kt`)
 * are classes over one shared `Database`.
 */
module LegacyStore {
  import opened Common
  import opened Names
  import opened Tables
  import opened LegacyModels

  datatype Store = Store(
    courses: map<int, Course>,
    students: map<int, Student>,
    courseSeq: int,   // the largest id either table's counter has handed out or seen
    studentSeq: int
  )

  /**
   * The database invariant: every row is stored under its own id, no id exceeds its
   * table's counter, and every student's course exists (the foreign key).
   */
  ghost predicate Consistent(s: Store) {
    && (forall k | k in s.courses :: s.courses[k].id == Some(k) && k <= s.courseSeq)
    && (forall k | k in s.students :: s.students[k].id == Some(k) && k <= s.studentSeq)
    && (forall k | k in s.students :: s.students[k].courseId in s.courses)
  }

  lemma ConsistentKeyed(s: Store)
    requires Consistent(s)
    ensures Keyed(s.courses, CourseKey) && Keyed(s.students, StudentKey)
  {
  }

  const EmptyStore := Store(map[], map[], 0, 0)

  /** What SQLite raises when a written student names a course that does not exist. */
  const ForeignKeyFailure := Exception(SQLiteConstraintException, Some("FOREIGN KEY constraint failed"))

  /** The id an insert stores a row under: its own, or a fresh one past the table's counter. */
  function AssignedId(id: Option<int>, counter: int): (k: int)
    ensures id.Some? ==> k == id.value
    ensures id.None? ==> k > counter
  {
    if id.Some? then id.value else counter + 1
  }

  function Max(a: int, b: int): int { if a < b then b else a }

  /** The students left after their courses in `parents` were deleted: ON DELETE CASCADE. */
  function WithoutChildren(students: map<int, Student>, parents: set<int>): (r: map<int, Student>)
    ensures forall k :: k in r <==> k in students && students[k].courseId !in parents
    ensures forall k | k in r :: r[k] == students[k]
  {
    map k | k in students && students[k].courseId !in parents :: students[k]
  }

  // ---- course table ----

  /**
   * `insertCourse` (REPLACE): the row is stored under its assigned id; a row already
   * under that id is deleted first, and with it, by the cascade, its students.
   */
  function PutCourse(s: Store, c: Course): (r: Store)
    ensures Consistent(s) ==> Consistent(r)
    ensures r.courses.Keys == s.courses.Keys + {AssignedId(c.id, s.courseSeq)}
    ensures r.courses[AssignedId(c.id, s.courseSeq)] == c.(id := Some(AssignedId(c.id, s.courseSeq)))
    ensures forall k | k in s.courses && k != AssignedId(c.id, s.courseSeq) :: r.courses[k] == s.courses[k]
    ensures r.students.Keys <= s.students.Keys
    ensures forall k | k in r.students :: r.students[k] == s.students[k]
  {
    var k := AssignedId(c.id, s.courseSeq);
    var students := if k in s.courses then WithoutChildren(s.students, {k}) else s.students;
    Store(s.courses[k := c.(id := Some(k))], students, Max(s.courseSeq, k), s.studentSeq)
  }

  /** `insertCourses`: one REPLACE per listed course, in order. */
  function PutCourses(s: Store, cs: seq<Course>): (r: Store)
    ensures Consistent(s) ==> Consistent(r)
    ensures r.students.Keys <= s.students.Keys
    decreases |cs|
  {
    if |cs| == 0 then s else PutCourses(PutCourse(s, cs[0]), cs[1..])
  }

  /** `@Update updateCourse`: rewrites the row with the same id in place; a null or absent id matches nothing. */
  function UpdateCourseRow(s: Store, c: Course): (r: Store)
    ensures Consistent(s) ==> Consistent(r)
    ensures r.courses.Keys == s.courses.Keys && r.students == s.students
    ensures c.id.Some? && c.id.value in s.courses ==> r.courses[c.id.value] == c
    ensures !(c.id.Some? && c.id.value in s.courses) ==> r == s
  {
    if c.id.Some? && c.id.value in s.courses then s.(courses := s.courses[c.id.value := c]) else s
  }

  /** `deleteCourse`: `id = NULL` matches nothing; a deleted course takes its students with it. */
  function DeleteCourseRow(s: Store, courseId: Option<int>): (r: Store)
    ensures Consistent(s) ==> Consistent(r)
  {
    if courseId.Some? && courseId.value in s.courses then
      s.(courses := s.courses - {courseId.value}, students := WithoutChildren(s.students, {courseId.value}))
    else s
  }

  /** `clearAllCourses`: every course goes, and by the cascade every student of one. */
  function ClearCourses(s: Store): (r: Store)
    ensures Consistent(s) ==> Consistent(r)
  {
    s.(courses := map[], students := WithoutChildren(s.students, s.courses.Keys))
  }

  // ---- student table ----

  /**
   * `insertStudent` (REPLACE): a student whose course does not exist is refused;
   * otherwise the row is stored under its assigned id, replacing any row there.
   */
  function PutStudent(s: Store, st: Student): (r: Result<Store>)
    ensures r.Failure? <==> st.courseId !in s.courses
    ensures r.Failure? ==> r.error == ForeignKeyFailure
    ensures Consistent(s) && r.Success? ==> Consistent(r.value)
    ensures r.Success? ==>
      && r.value.courses == s.courses
      && r.value.students.Keys == s.students.Keys + {AssignedId(st.id, s.studentSeq)}
      && r.value.students[AssignedId(st.id, s.studentSeq)] == st.(id := Some(AssignedId(st.id, s.studentSeq)))
      && (forall k | k in s.students && k != AssignedId(st.id, s.studentSeq) :: r.value.students[k] == s.students[k])
  {
    if st.courseId !in s.courses then Failure(ForeignKeyFailure)
    else
      var k := AssignedId(st.id, s.studentSeq);
      Success(s.(students := s.students[k := st.(id := Some(k))], studentSeq := Max(s.studentSeq, k)))
  }

  /**
   * `insertStudents`: one REPLACE per listed student, in one transaction, so one refused
   * student refuses the whole list.
   */
  function PutStudents(s: Store, sts: seq<Student>): (r: Result<Store>)
    ensures Consistent(s) && r.Success? ==> Consistent(r.value)
    ensures r.Success? ==> r.value.courses == s.courses
    decreases |sts|
  {
    if |sts| == 0 then Success(s)
    else match PutStudent(s, sts[0])
      case Failure(e) => Failure(e)
      case Success(t) => PutStudents(t, sts[1..])
  }

  /**
   * `@Update updateStudent`: a null or absent id matches nothing; otherwise the row is
   * rewritten in place, unless its new course does not exist.
   */
  function UpdateStudentRow(s: Store, st: Student): (r: Result<Store>)
    ensures !(st.id.Some? && st.id.value in s.students) ==> r == Success(s)
    ensures st.id.Some? && st.id.value in s.students ==>
      (r.Failure? <==> st.courseId !in s.courses)
    ensures r.Failure? ==> r.error == ForeignKeyFailure
    ensures Consistent(s) && r.Success? ==> Consistent(r.value)
    ensures r.Success? && st.id.Some? && st.id.value in s.students ==>
      r.value == s.(students := s.students[st.id.value := st])
  {
    if !(st.id.Some? && st.id.value in s.students) then Success(s)
    else if st.courseId !in s.courses then Failure(ForeignKeyFailure)
    else Success(s.(students := s.students[st.id.value := st]))
  }

  /** `deleteStudent`: `id = NULL` matches nothing. */
  function DeleteStudentRow(s: Store, studentId: Option<int>): (r: Store)
    ensures Consistent(s) ==> Consistent(r)
    ensures r.courses == s.courses
    ensures r.students.Keys == if studentId.Some? then s.students.Keys - {studentId.value} else s.students.Keys
    ensures forall k | k in r.students :: r.students[k] == s.students[k]
  {
    if studentId.Some? then s.(students := s.students - {studentId.value}) else s
  }

  /** `clearAllStudents`. */
  function ClearStudents(s: Store): (r: Store)
    ensures Consistent(s) ==> Consistent(r)
    ensures r.courses == s.courses && r.students == map[]
  {
    s.(students := map[])
  }

  /** `deleteStudentsByCourse`. */
  function DeleteStudentsOfCourse(s: Store, courseId: int): (r: Store)
    ensures Consistent(s) ==> Consistent(r)
    ensures r.courses == s.courses
    ensures forall k :: k in r.students <==> k in s.students && s.students[k].courseId != courseId
    ensures forall k | k in r.students :: r.students[k] == s.students[k]
  {
    s.(students := WithoutChildren(s.students, {courseId}))
  }

  // ---- queries ----

  /** `getAllCourses`: every course once, ascending by name. */
  function AllCourses(s: Store): (r: seq<Course>)
    requires Consistent(s)
    ensures |r| == |s.courses|
    ensures forall i | 0 <= i < |r| :: r[i].id.Some? && r[i].id.value in s.courses && s.courses[r[i].id.value] == r[i]
    ensures forall k | k in s.courses :: s.courses[k] in r
    ensures forall i, j | 0 <= i < j < |r| :: r[i].id != r[j].id
    ensures forall i, j | 0 <= i < j < |r| :: NameLe(r[i].name, r[j].name)
  {
    ConsistentKeyed(s);
    SortedRows(s.courses, CourseKey, CourseName)
  }

  /** `getCourseById`: `id = NULL` matches nothing. */
  function CourseById(s: Store, courseId: Option<int>): (r: Option<Course>)
    requires Consistent(s)
    ensures r.Some? <==> courseId.Some? && courseId.value in s.courses
    ensures r.Some? ==> r.value.id == courseId && r.value == s.courses[courseId.value]
  {
    if courseId.Some? && courseId.value in s.courses then
      assert forall k | k in s.courses :: s.courses[k].id == Some(k);
      Some(s.courses[courseId.value])
    else None
  }

  /** The rows of one course. */
  function StudentsOf(students: map<int, Student>, courseId: int): map<int, Student> {
    map k | k in students && students[k].courseId == courseId :: students[k]
  }

  /** `getStudentCountForCourse`: `SELECT COUNT(*) ... WHERE courseId = :courseId`. */
  function StudentCount(s: Store, courseId: int): (n: nat)
    ensures n == 0 <==> forall k | k in s.students :: s.students[k].courseId != courseId
  {
    var m := StudentsOf(s.students, courseId);
    if forall k | k in s.students :: s.students[k].courseId != courseId then
      assert m == map[];
      |m|
    else
      var k :| k in s.students && s.students[k].courseId == courseId;
      assert k in m;
      |m|
  }

  /** `getAllStudents`: every student once, ascending by name. */
  function AllStudents(s: Store): (r: seq<Student>)
    requires Consistent(s)
    ensures |r| == |s.students|
    ensures forall i | 0 <= i < |r| :: r[i].id.Some? && r[i].id.value in s.students && s.students[r[i].id.value] == r[i]
    ensures forall k | k in s.students :: s.students[k] in r
    ensures forall i, j | 0 <= i < j < |r| :: r[i].id != r[j].id
    ensures forall i, j | 0 <= i < j < |r| :: NameLe(r[i].name, r[j].name)
  {
    ConsistentKeyed(s);
    SortedRows(s.students, StudentKey, StudentName)
  }

  /** `getStudentsByCourse`: the students of one course, ascending by name; as many as the count. */
  function StudentsByCourse(s: Store, courseId: int): (r: seq<Student>)
    requires Consistent(s)
    ensures |r| == StudentCount(s, courseId)
    ensures forall i | 0 <= i < |r| ::
      r[i].courseId == courseId && r[i].id.Some? && r[i].id.value in s.students && s.students[r[i].id.value] == r[i]
    ensures forall k | k in s.students && s.students[k].courseId == courseId :: s.students[k] in r
    ensures forall i, j | 0 <= i < j < |r| :: r[i].id != r[j].id
    ensures forall i, j | 0 <= i < j < |r| :: NameLe(r[i].name, r[j].name)
  {
    var m := StudentsOf(s.students, courseId);
    assert Keyed(m, StudentKey);
    var r := SortedRows(m, StudentKey, StudentName);
    forall i | 0 <= i < |r|
      ensures r[i].courseId == courseId && r[i].id.Some? && r[i].id.value in s.students && s.students[r[i].id.value] == r[i]
    {
      assert StudentKey(r[i]) in m;
    }
    forall k | k in s.students && s.students[k].courseId == courseId
      ensures s.students[k] in r
    {
      assert k in m;
    }
    r
  }

  /** `getStudentById`: `id = NULL` matches nothing. */
  function StudentById(s: Store, studentId: Option<int>): (r: Option<Student>)
    requires Consistent(s)
    ensures r.Some? <==> studentId.Some? && studentId.value in s.students
    ensures r.Some? ==> r.value.id == studentId && r.value == s.students[studentId.value]
    ensures r.Some? ==> r.value.courseId in s.courses
  {
    if studentId.Some? && studentId.value in s.students then
      assert forall k | k in s.students :: s.students[k].id == Some(k) && s.students[k].courseId in s.courses;
      Some(s.students[studentId.value])
    else None
  }

  // ---- properties ----

  /**
   * Deleting a course removes it and exactly its students: no remaining student names
   * it, and every other course and student is untouched.
   */
  lemma DeleteCourseCascades(s: Store, c: int)
    requires Consistent(s)
    ensures DeleteCourseRow(s, Some(c)).courses == s.courses - {c}
    ensures forall k | k in DeleteCourseRow(s, Some(c)).students :: DeleteCourseRow(s, Some(c)).students[k].courseId != c
    ensures forall k | k in s.students && s.students[k].courseId != c ::
      k in DeleteCourseRow(s, Some(c)).students && DeleteCourseRow(s, Some(c)).students[k] == s.students[k]
    ensures StudentCount(DeleteCourseRow(s, Some(c)), c) == 0
    ensures DeleteCourseRow(s, Some(c)).students == WithoutChildren(s.students, {c})
    ensures DeleteCourseRow(s, Some(c)).courseSeq == s.courseSeq && DeleteCourseRow(s, Some(c)).studentSeq == s.studentSeq
  {
    if c !in s.courses {
      assert forall k | k in s.students :: s.students[k].courseId in s.courses;
      assert WithoutChildren(s.students, {c}) == s.students;
    }
  }

  /** `clearAllCourses` empties both tables. */
  lemma ClearCoursesEmptiesBoth(s: Store)
    requires Consistent(s)
    ensures ClearCourses(s).courses == map[] && ClearCourses(s).students == map[]
  {
    var r := ClearCourses(s);
    forall k | k in s.students
      ensures k !in r.students
    {
      assert s.students[k].courseId in s.courses;
    }
    assert r.students.Keys == {};
  }

  /**
   * REPLACE on an existing course id deletes before it inserts, so the course's students
   * go with the old row; a course id not yet stored takes no student with it.
   */
  lemma ReplaceCourseDropsItsStudents(s: Store, c: Course)
    requires Consistent(s)
    ensures c.id.Some? && c.id.value in s.courses ==>
      StudentCount(PutCourse(s, c), c.id.value) == 0
    ensures c.id.Some? && c.id.value in s.courses ==>
      forall k | k in s.students && s.students[k].courseId != c.id.value :: k in PutCourse(s, c).students
    ensures !(c.id.Some? && c.id.value in s.courses) ==> PutCourse(s, c).students == s.students
  {
    if !(c.id.Some? && c.id.value in s.courses) {
      var k := AssignedId(c.id, s.courseSeq);
      assert k !in s.courses;
    }
  }

  /** The legacy course refresh (clear, then insert) leaves the student table empty. */
  lemma RefreshCoursesEmptiesStudents(s: Store, cs: seq<Course>)
    requires Consistent(s)
    ensures PutCourses(ClearCourses(s), cs).students == map[]
  {
    ClearCoursesEmptiesBoth(s);
    assert PutCourses(ClearCourses(s), cs).students.Keys <= {};
  }

  /** `insertStudents` is refused exactly when some listed student names a missing course. */
  lemma {:induction false} PutStudentsAllOrNothing(s: Store, sts: seq<Student>)
    ensures PutStudents(s, sts).Failure? <==> exists i :: 0 <= i < |sts| && sts[i].courseId !in s.courses
    decreases |sts|
  {
    if |sts| > 0 {
      match PutStudent(s, sts[0])
      case Failure(_) =>
      case Success(t) =>
        PutStudentsAllOrNothing(t, sts[1..]);
        if exists i :: 0 <= i < |sts[1..]| && sts[1..][i].courseId !in t.courses {
          var i :| 0 <= i < |sts[1..]| && sts[1..][i].courseId !in t.courses;
          assert sts[i + 1].courseId !in s.courses;
        }
        if exists i :: 0 <= i < |sts| && sts[i].courseId !in s.courses {
          var i :| 0 <= i < |sts| && sts[i].courseId !in s.courses;
          assert i > 0;
          assert sts[1..][i - 1].courseId !in t.courses;
        }
    }
  }

  /** A student inserted with a null id gets an id no stored student has. */
  lemma AutogeneratedStudentIdIsFresh(s: Store, st: Student)
    requires Consistent(s)
    requires st.id.None?
    ensures AssignedId(st.id, s.studentSeq) !in s.students
  {
  }

  /** A course inserted with a null id gets an id no stored course has. */
  lemma AutogeneratedCourseIdIsFresh(s: Store, c: Course)
    requires Consistent(s)
    requires c.id.None?
    ensures AssignedId(c.id, s.courseSeq) !in s.courses
    ensures PutCourse(s, c).courses.Keys == s.courses.Keys + {AssignedId(c.id, s.courseSeq)}
    ensures PutCourse(s, c).students == s.students
  {
  }

  // ---- list inserts of rows that carry their ids ----

  /** Every listed course carries an id, so inserting the list autogenerates nothing. */
  predicate CoursesIdentified(cs: seq<Course>) {
    forall i | 0 <= i < |cs| :: cs[i].id.Some?
  }

  /** Every listed student carries an id. */
  predicate StudentsIdentified(sts: seq<Student>) {
    forall i | 0 <= i < |sts| :: sts[i].id.Some?
  }

  lemma WithoutChildrenTwice(students: map<int, Student>, a: set<int>, b: set<int>)
    ensures WithoutChildren(WithoutChildren(students, a), b) == WithoutChildren(students, a + b)
  {
  }

  /**
   * `insertCourses` of courses that carry their ids is an insert-or-replace by id on the
   * course table; by the cascade, the students of every listed course already stored go.
   * The counters move only for ids beyond them.
   */
  lemma {:induction false} PutCoursesUpserts(s: Store, cs: seq<Course>)
    requires Consistent(s)
    requires CoursesIdentified(cs)
    ensures PutCourses(s, cs).courses == Upsert(s.courses, cs, CourseKey)
    ensures PutCourses(s, cs).students == WithoutChildren(s.students, KeysOf(cs, CourseKey))
    ensures PutCourses(s, cs).studentSeq == s.studentSeq
    ensures (forall i | 0 <= i < |cs| :: cs[i].id.value <= s.courseSeq) ==> PutCourses(s, cs).courseSeq == s.courseSeq
    decreases |cs|
  {
    if |cs| == 0 {
      assert KeysOf(cs, CourseKey) == {};
      assert WithoutChildren(s.students, {}) == s.students;
    } else {
      var c, rest := cs[0], cs[1..];
      var k := c.id.value;
      var t := PutCourse(s, c);
      assert c.(id := Some(k)) == c;
      assert t.students == WithoutChildren(s.students, {k}) by {
        if k !in s.courses {
          assert forall j | j in s.students :: s.students[j].courseId in s.courses;
        }
      }
      assert CoursesIdentified(rest) by {
        forall i | 0 <= i < |rest|
          ensures rest[i].id.Some?
        {
          assert rest[i] == cs[i + 1];
        }
      }
      PutCoursesUpserts(t, rest);
      KeysOfSplit(cs, CourseKey);
      WithoutChildrenTwice(s.students, {k}, KeysOf(rest, CourseKey));
      if forall i | 0 <= i < |cs| :: cs[i].id.value <= s.courseSeq {
        forall i | 0 <= i < |rest|
          ensures rest[i].id.value <= t.courseSeq
        {
          assert rest[i] == cs[i + 1];
        }
      }
    }
  }

  /** Repeating `insertCourses` of courses that carry their ids changes nothing. */
  lemma PutCoursesIdempotent(s: Store, cs: seq<Course>)
    requires Consistent(s)
    requires CoursesIdentified(cs)
    ensures PutCourses(PutCourses(s, cs), cs) == PutCourses(s, cs)
  {
    var keys := KeysOf(cs, CourseKey);
    var t := PutCourses(s, cs);
    PutCoursesUpserts(s, cs);
    UpsertSpec(s.courses, cs, CourseKey);
    forall i | 0 <= i < |cs|
      ensures cs[i].id.value <= t.courseSeq
    {
      assert CourseKey(cs[i]) in keys;
      assert forall j | j in t.courses :: j <= t.courseSeq;
    }
    PutCoursesUpserts(t, cs);
    UpsertIdempotent(s.courses, cs, CourseKey);
    WithoutChildrenTwice(s.students, keys, keys);
    assert keys + keys == keys;
  }

  /**
   * The legacy course refresh (clear, then insert) of courses that carry their ids leaves
   * exactly the listed courses, each id holding the last course listed with it, and no students.
   */
  lemma RefreshedCoursesAreTheList(s: Store, cs: seq<Course>)
    requires Consistent(s)
    requires CoursesIdentified(cs)
    ensures PutCourses(ClearCourses(s), cs).courses == RowsMap(cs, CourseKey)
    ensures PutCourses(ClearCourses(s), cs).courses.Keys == KeysOf(cs, CourseKey)
    ensures forall i | 0 <= i < |cs| && LastOfKey(cs, CourseKey, i) ::
      PutCourses(ClearCourses(s), cs).courses[cs[i].id.value] == cs[i]
    ensures PutCourses(ClearCourses(s), cs).students == map[]
  {
    PutCoursesUpserts(ClearCourses(s), cs);
    UpsertSpec(map[], cs, CourseKey);
    RefreshCoursesEmptiesStudents(s, cs);
  }

  /**
   * An accepted `insertStudents` of students that carry their ids is an insert-or-replace
   * by id on the student table; the course table and its counter stay as they were.
   */
  lemma {:induction false} PutStudentsUpserts(s: Store, sts: seq<Student>)
    requires StudentsIdentified(sts)
    ensures PutStudents(s, sts).Success? ==>
      && PutStudents(s, sts).value.students == Upsert(s.students, sts, StudentKey)
      && PutStudents(s, sts).value.courseSeq == s.courseSeq
    ensures PutStudents(s, sts).Success? && (forall i | 0 <= i < |sts| :: sts[i].id.value <= s.studentSeq) ==>
      PutStudents(s, sts).value.studentSeq == s.studentSeq
    decreases |sts|
  {
    if |sts| > 0 && PutStudents(s, sts).Success? {
      var st, rest := sts[0], sts[1..];
      var k := st.id.value;
      var t := PutStudent(s, st).value;
      assert st.(id := Some(k)) == st;
      assert StudentsIdentified(rest) by {
        forall i | 0 <= i < |rest|
          ensures rest[i].id.Some?
        {
          assert rest[i] == sts[i + 1];
        }
      }
      PutStudentsUpserts(t, rest);
      if forall i | 0 <= i < |sts| :: sts[i].id.value <= s.studentSeq {
        forall i | 0 <= i < |rest|
          ensures rest[i].id.value <= t.studentSeq
        {
          assert rest[i] == sts[i + 1];
        }
      }
    }
  }

  /** Repeating an accepted `insertStudents` of students that carry their ids changes nothing. */
  lemma PutStudentsIdempotent(s: Store, sts: seq<Student>)
    requires Consistent(s)
    requires StudentsIdentified(sts)
    ensures PutStudents(s, sts).Success? ==>
      PutStudents(PutStudents(s, sts).value, sts) == PutStudents(s, sts)
  {
    if PutStudents(s, sts).Success? {
      var t := PutStudents(s, sts).value;
      PutStudentsAllOrNothing(s, sts);
      PutStudentsAllOrNothing(t, sts);
      PutStudentsUpserts(s, sts);
      UpsertSpec(s.students, sts, StudentKey);
      forall i | 0 <= i < |sts|
        ensures sts[i].id.value <= t.studentSeq
      {
        assert StudentKey(sts[i]) in KeysOf(sts, StudentKey);
        assert forall j | j in t.students :: j <= t.studentSeq;
      }
      PutStudentsUpserts(t, sts);
      UpsertIdempotent(s.students, sts, StudentKey);
    }
  }

  /**
   * The legacy student refresh (clear, then insert), when accepted, leaves exactly the
   * listed students, each id holding the last student listed with it.
   */
  lemma RefreshedStudentsAreTheList(s: Store, sts: seq<Student>)
    requires StudentsIdentified(sts)
    ensures PutStudents(ClearStudents(s), sts).Success? ==>
      && PutStudents(ClearStudents(s), sts).value.students == RowsMap(sts, StudentKey)
      && PutStudents(ClearStudents(s), sts).value.students.Keys == KeysOf(sts, StudentKey)
      && forall i | 0 <= i < |sts| && LastOfKey(sts, StudentKey, i) ::
           PutStudents(ClearStudents(s), sts).value.students[sts[i].id.value] == sts[i]
  {
    PutStudentsUpserts(ClearStudents(s), sts);
    UpsertSpec(map[], sts, StudentKey);
  }

  /**
   * The legacy refresh of one course's students (delete them, then insert), when accepted:
   * the other courses' students stay unless the list names their id, each listed id holds
   * the last student listed with it, under that student's own `courseId`, and every student
   * left under the course comes from the list.
   */
  lemma RefreshedCourseStudents(s: Store, courseId: int, sts: seq<Student>)
    requires StudentsIdentified(sts)
    ensures var r := PutStudents(DeleteStudentsOfCourse(s, courseId), sts);
      r.Success? ==>
        && r.value.students.Keys ==
             (set k | k in s.students && s.students[k].courseId != courseId) + KeysOf(sts, StudentKey)
        && (forall i | 0 <= i < |sts| && LastOfKey(sts, StudentKey, i) :: r.value.students[sts[i].id.value] == sts[i])
        && (forall k | k in s.students && s.students[k].courseId != courseId && k !in KeysOf(sts, StudentKey) ::
              r.value.students[k] == s.students[k])
        && (forall k | k in r.value.students && r.value.students[k].courseId == courseId :: k in KeysOf(sts, StudentKey))
  {
    var d := DeleteStudentsOfCourse(s, courseId);
    PutStudentsUpserts(d, sts);
    UpsertSpec(d.students, sts, StudentKey);
    assert d.students.Keys == set k | k in s.students && s.students[k].courseId != courseId;
  }

  /** Shared database state, with the invariant as `Valid`. */
  class Database {
    var store: Store

    ghost predicate Valid()
      reads this
    {
      Consistent(store)
    }

    constructor ()
      ensures Valid() && store == EmptyStore
    {
      store := EmptyStore;
    }
  }

  /** `dao/CourseDao.kt`: the writes to the course table (and, by cascade, the student table). */
  class CourseDao {
    const db: Database

    constructor (db: Database)
      ensures this.db == db
    {
      this.db := db;
    }

    method InsertCourses(courses: seq<Course>)
      requires db.Valid()
      modifies db
      ensures db.Valid() && db.store == PutCourses(old(db.store), courses)
      ensures CoursesIdentified(courses) ==>
        && db.store.courses == Upsert(old(db.store).courses, courses, CourseKey)
        && db.store.students == WithoutChildren(old(db.store).students, KeysOf(courses, CourseKey))
    {
      if CoursesIdentified(courses) {
        PutCoursesUpserts(db.store, courses);
      }
      db.store := PutCourses(db.store, courses);
    }

    /** Returns the row id, which is the assigned primary key. */
    method InsertCourse(course: Course) returns (rowId: int)
      requires db.Valid()
      modifies db
      ensures db.Valid() && db.store == PutCourse(old(db.store), course)
      ensures rowId == AssignedId(course.id, old(db.store).courseSeq) && rowId in db.store.courses
    {
      rowId := AssignedId(course.id, db.store.courseSeq);
      db.store := PutCourse(db.store, course);
    }

    method UpdateCourse(course: Course)
      requires db.Valid()
      modifies db
      ensures db.Valid() && db.store == UpdateCourseRow(old(db.store), course)
    {
      db.store := UpdateCourseRow(db.store, course);
    }

    method DeleteCourse(courseId: Option<int>)
      requires db.Valid()
      modifies db
      ensures db.Valid() && db.store == DeleteCourseRow(old(db.store), courseId)
    {
      db.store := DeleteCourseRow(db.store, courseId);
    }

    method ClearAllCourses()
      requires db.Valid()
      modifies db
      ensures db.Valid() && db.store == ClearCourses(old(db.store))
    {
      db.store := ClearCourses(db.store);
    }
  }

  /** `dao/StudentDao.kt`: the writes to the student table; a refused write leaves it as it was. */
  class StudentDao {
    const db: Database

    constructor (db: Database)
      ensures this.db == db
    {
      this.db := db;
    }

    method InsertStudents(students: seq<Student>) returns (thrown: Option<Exception>)
      requires db.Valid()
      modifies db
      ensures db.Valid()
      ensures PutStudents(old(db.store), students).Success? ==>
        thrown == None && db.store == PutStudents(old(db.store), students).value
      ensures PutStudents(old(db.store), students).Failure? ==>
        thrown == Some(PutStudents(old(db.store), students).error) && db.store == old(db.store)
      ensures thrown == None && StudentsIdentified(students) ==>
        db.store.courses == old(db.store).courses && db.store.students == Upsert(old(db.store).students, students, StudentKey)
    {
      if StudentsIdentified(students) {
        PutStudentsUpserts(db.store, students);
      }
      match PutStudents(db.store, students)
      case Success(t) =>
        db.store := t;
        thrown := None;
      case Failure(e) =>
        thrown := Some(e);
    }

    /** Returns the row id, which is the assigned primary key, or the exception raised. */
    method InsertStudent(student: Student) returns (rowId: Result<int>)
      requires db.Valid()
      modifies db
      ensures db.Valid()
      ensures PutStudent(old(db.store), student).Success? ==>
        && rowId == Success(AssignedId(student.id, old(db.store).studentSeq))
        && db.store == PutStudent(old(db.store), student).value
      ensures PutStudent(old(db.store), student).Failure? ==>
        rowId == Failure(ForeignKeyFailure) && db.store == old(db.store)
    {
      match PutStudent(db.store, student)
      case Success(t) =>
        rowId := Success(AssignedId(student.id, db.store.studentSeq));
        db.store := t;
      case Failure(e) =>
        rowId := Failure(e);
    }

    method UpdateStudent(student: Student) returns (thrown: Option<Exception>)
      requires db.Valid()
      modifies db
      ensures db.Valid()
      ensures UpdateStudentRow(old(db.store), student).Success? ==>
        thrown == None && db.store == UpdateStudentRow(old(db.store), student).value
      ensures UpdateStudentRow(old(db.store), student).Failure? ==>
        thrown == Some(ForeignKeyFailure) && db.store == old(db.store)
    {
      match UpdateStudentRow(db.store, student)
      case Success(t) =>
        db.store := t;
        thrown := None;
      case Failure(e) =>
        thrown := Some(e);
    }

    method DeleteStudent(studentId: Option<int>)
      requires db.Valid()
      modifies db
      ensures db.Valid() && db.store == DeleteStudentRow(old(db.store), studentId)
    {
      db.store := DeleteStudentRow(db.store, studentId);
    }

    method ClearAllStudents()
      requires db.Valid()
      modifies db
      ensures db.Valid() && db.store == ClearStudents(old(db.store))
    {
      db.store := ClearStudents(db.store);
    }

    method DeleteStudentsByCourse(courseId: int)
      requires db.Valid()
      modifies db
      ensures db.Valid() && db.store == DeleteStudentsOfCourse(old(db.store), courseId)
    {
      db.store := DeleteStudentsOfCourse(db.store, courseId);
    }
  }
}
