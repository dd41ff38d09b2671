/**
 * `StudentViewModel`: the student screens' state and its read-through and
 * write-through operations over the student table. Each operation runs to
 * completion; connectivity and the remote outcome are parameters.
 */
module StudentViewModels {
  import opened Common
  import opened Names
  import opened Tables
  import opened Lists
  import opened RoomStudentDao
  import RoomCourseDao
  import opened ResponseOrigin

  /** `model.Student`: what the API returns and the screens show; the id is null until the server assigns one. */
  datatype Student = Student(id: Option<int>, name: string, email: string, phone: string, courseId: int)

  /** `toEntity`: the row a student from the server is stored as; `id!!` demands the id. */
  function ToEntity(s: Student): (e: StudentEntity)
    requires s.id.Some?
    ensures ToStudent(e) == s
  {
    StudentEntity(s.id.value, s.name, s.email, s.phone, s.courseId)
  }

  /** `toStudent`: the student a row is shown as. */
  function ToStudent(e: StudentEntity): (s: Student)
    ensures s.id == Some(e.id)
  {
    Student(Some(e.id), e.name, e.email, e.phone, e.courseId)
  }

  lemma EntityRoundTrip(e: StudentEntity)
    ensures ToEntity(ToStudent(e)) == e
  {
  }

  function ToStudents(es: seq<StudentEntity>): (ss: seq<Student>)
    ensures |ss| == |es|
    ensures forall i | 0 <= i < |es| :: ss[i] == ToStudent(es[i])
  {
    seq(|es|, i requires 0 <= i < |es| => ToStudent(es[i]))
  }

  /** The exposed list of a course: `getStudentsByCourse` as `Student` values. */
  function StudentList(rows: map<int, StudentEntity>, courseId: int): (r: seq<Student>)
    requires WellKeyed(rows)
  {
    ToStudents(StudentsByCourse(rows, courseId))
  }

  /**
   * The exposed list of a course is derived from the store alone: every stored student
   * of that course exactly once, no student of another course, ascending by name.
   */
  lemma StudentListIsCourseListing(rows: map<int, StudentEntity>, courseId: int)
    requires WellKeyed(rows)
    ensures forall i | 0 <= i < |StudentList(rows, courseId)| ::
      && StudentList(rows, courseId)[i].courseId == courseId
      && StudentList(rows, courseId)[i].id.Some?
      && StudentList(rows, courseId)[i].id.value in rows
      && ToStudent(rows[StudentList(rows, courseId)[i].id.value]) == StudentList(rows, courseId)[i]
    ensures forall k | k in rows && rows[k].courseId == courseId :: ToStudent(rows[k]) in StudentList(rows, courseId)
    ensures forall i, j | 0 <= i < j < |StudentList(rows, courseId)| ::
      StudentList(rows, courseId)[i].id != StudentList(rows, courseId)[j].id
    ensures forall i, j | 0 <= i < j < |StudentList(rows, courseId)| ::
      NameLe(StudentList(rows, courseId)[i].name, StudentList(rows, courseId)[j].name)
  {
    var es := StudentsByCourse(rows, courseId);
    var r := StudentList(rows, courseId);
    forall i | 0 <= i < |r|
      ensures r[i].courseId == courseId && r[i].id.Some? && r[i].id.value in rows && ToStudent(rows[r[i].id.value]) == r[i]
    {
      assert r[i] == ToStudent(es[i]);
    }
    forall k | k in rows && rows[k].courseId == courseId
      ensures ToStudent(rows[k]) in r
    {
      var i :| 0 <= i < |es| && es[i] == rows[k];
      assert r[i] == ToStudent(rows[k]);
    }
    forall i, j | 0 <= i < j < |r|
      ensures r[i].id != r[j].id && NameLe(r[i].name, r[j].name)
    {
      assert r[i] == ToStudent(es[i]) && r[j] == ToStudent(es[j]);
    }
  }

  /** A student the server created or updated is listed under its course once it is stored. */
  lemma StoredStudentIsListed(rows: map<int, StudentEntity>, student: Student)
    requires WellKeyed(rows)
    requires student.id.Some?
    ensures student in StudentList(WithStudents(rows, [ToEntity(student)]), student.courseId)
  {
    var after := WithStudents(rows, [ToEntity(student)]);
    UpsertSpec(rows, [ToEntity(student)], EntityId);
    assert LastOfKey([ToEntity(student)], EntityId, 0);
    assert after[student.id.value] == ToEntity(student);
    StudentListIsCourseListing(after, student.courseId);
  }

  /** A student deleted from the table is no longer listed under any course. */
  lemma DeletedStudentIsNotListed(rows: map<int, StudentEntity>, studentId: int, courseId: int)
    requires WellKeyed(rows)
    ensures WellKeyed(WithoutStudent(rows, Some(studentId)))
    ensures forall i | 0 <= i < |StudentList(WithoutStudent(rows, Some(studentId)), courseId)| ::
      StudentList(WithoutStudent(rows, Some(studentId)), courseId)[i].id != Some(studentId)
  {
    StudentListIsCourseListing(WithoutStudent(rows, Some(studentId)), courseId);
  }

  /** Every student carries an id, so mapping the list with `id!!` does not throw. */
  predicate Identified(students: seq<Student>) {
    forall i | 0 <= i < |students| :: students[i].id.Some?
  }

  /** The ids a list of students carries. */
  ghost function IdsOf(students: seq<Student>): set<int> {
    set i | 0 <= i < |students| && students[i].id.Some? :: students[i].id.value
  }

  /** The rows `fetchStudentsForCourse` stores: each fetched student, assigned to the course asked for. */
  function SliceEntities(students: seq<Student>, courseId: int): (es: seq<StudentEntity>)
    requires Identified(students)
    ensures |es| == |students|
    ensures forall i | 0 <= i < |es| ::
      es[i] == ToEntity(students[i]).(courseId := courseId)
  {
    seq(|students|, i requires 0 <= i < |students| => ToEntity(students[i]).(courseId := courseId))
  }

  /** Whether the online branch of `fetchStudentsForCourse` runs to its end. */
  predicate FetchSucceeds(response: ApiResult<seq<Student>>) {
    response.Returned? && Identified(response.value)
  }

  /** The table after a successful online fetch: `deleteStudentsByCourse` then `insertStudents`. */
  function RefreshedSlice(rows: map<int, StudentEntity>, courseId: int, students: seq<Student>): (r: map<int, StudentEntity>)
    requires WellKeyed(rows)
    requires Identified(students)
    ensures WellKeyed(r)
  {
    WithStudents(WithoutCourse(rows, courseId), SliceEntities(students, courseId))
  }

  /**
   * A successful fetch replaces one course's slice: afterwards the course holds exactly
   * the fetched ids; a row of another course stays as it was unless its id was fetched,
   * in which case it now belongs to the course; no other row appears.
   */
  lemma RefreshedSliceReplacesCourse(rows: map<int, StudentEntity>, courseId: int, students: seq<Student>)
    requires WellKeyed(rows)
    requires Identified(students)
    ensures forall k ::
      (k in RefreshedSlice(rows, courseId, students) && RefreshedSlice(rows, courseId, students)[k].courseId == courseId)
      <==> k in IdsOf(students)
    ensures forall k | k in rows && rows[k].courseId != courseId && k !in IdsOf(students) ::
      k in RefreshedSlice(rows, courseId, students) && RefreshedSlice(rows, courseId, students)[k] == rows[k]
    ensures forall k | k in RefreshedSlice(rows, courseId, students) && k !in IdsOf(students) ::
      k in rows && RefreshedSlice(rows, courseId, students)[k] == rows[k]
  {
    var kept := WithoutCourse(rows, courseId);
    var es := SliceEntities(students, courseId);
    var r := RefreshedSlice(rows, courseId, students);
    UpsertSpec(kept, es, EntityId);
    assert KeysOf(es, EntityId) == IdsOf(students) by {
      forall k | k in KeysOf(es, EntityId)
        ensures k in IdsOf(students)
      {
        var i :| 0 <= i < |es| && EntityId(es[i]) == k;
        assert students[i].id == Some(k);
      }
      forall k | k in IdsOf(students)
        ensures k in KeysOf(es, EntityId)
      {
        var i :| 0 <= i < |students| && students[i].id.Some? && students[i].id.value == k;
        assert EntityId(es[i]) == k;
      }
    }
    forall k | k in IdsOf(students)
      ensures k in r && r[k].courseId == courseId
    {
      var i :| 0 <= i < |es| && EntityId(es[i]) == k;
      var j := LastIndexOf(es, i);
      assert LastOfKey(es, EntityId, j);
    }
  }

  /** The last index of the rows whose key is that of row `i`. */
  function LastIndexOf(es: seq<StudentEntity>, i: int): (j: int)
    requires 0 <= i < |es|
    ensures i <= j < |es| && es[j].id == es[i].id
    ensures forall m | j < m < |es| :: es[m].id != es[i].id
    decreases |es| - i
  {
    if exists m | i < m < |es| :: es[m].id == es[i].id then
      var m :| i < m < |es| && es[m].id == es[i].id;
      LastIndexOf(es, m)
    else i
  }

  /** The exposed list after a successful delete: `filter { it.id != studentId }`. */
  function WithoutStudentId(students: seq<Student>, studentId: int): seq<Student> {
    Filter(students, (s: Student) => s.id != Some(studentId))
  }

  /**
   * Deleting from the exposed list drops exactly the entries with that id, keeps the
   * others in their order, and leaves a list without that id unchanged.
   */
  lemma WithoutStudentIdDropsOnlyIt(students: seq<Student>, studentId: int, a: seq<Student>, b: seq<Student>)
    requires students == a + b
    ensures forall i | 0 <= i < |WithoutStudentId(students, studentId)| ::
      WithoutStudentId(students, studentId)[i].id != Some(studentId)
    ensures forall i | 0 <= i < |students| && students[i].id != Some(studentId) ::
      students[i] in WithoutStudentId(students, studentId)
    ensures WithoutStudentId(students, studentId) == WithoutStudentId(a, studentId) + WithoutStudentId(b, studentId)
    ensures (forall i | 0 <= i < |students| :: students[i].id != Some(studentId)) ==>
      WithoutStudentId(students, studentId) == students
  {
    var keep := (s: Student) => s.id != Some(studentId);
    FilterConcat(a, b, keep);
    if forall i | 0 <= i < |students| :: students[i].id != Some(studentId) {
      FilterKeepsAll(students, keep);
    }
  }

  /** The exposed list after a successful update: entries with the reply's id become the reply. */
  function ReplaceById(students: seq<Student>, updated: Student): (r: seq<Student>)
    ensures |r| == |students|
    ensures forall i | 0 <= i < |r| :: r[i].id == students[i].id
    ensures forall i | 0 <= i < |r| :: students[i].id == updated.id ==> r[i] == updated
    ensures forall i | 0 <= i < |r| :: students[i].id != updated.id ==> r[i] == students[i]
  {
    seq(|students|, i requires 0 <= i < |students| => if students[i].id == updated.id then updated else students[i])
  }

  /**
   * Updating the exposed list never adds an entry: a reply whose id the list does not
   * hold leaves it unchanged, and replacing twice is replacing once.
   */
  lemma ReplaceByIdAddsNothing(students: seq<Student>, updated: Student)
    ensures (forall i | 0 <= i < |students| :: students[i].id != updated.id) ==>
      ReplaceById(students, updated) == students
    ensures ReplaceById(ReplaceById(students, updated), updated) == ReplaceById(students, updated)
  {
  }

  /** Whether an add or update runs to `onSuccess`: the call returned a student with an id. */
  predicate WriteSucceeds(response: ApiResult<Student>) {
    response.Returned? && response.value.id.Some?
  }

  /** The exception an unsuccessful add or update ends in: the call's own, or the NPE of `id!!`. */
  function WriteFailure(response: ApiResult<Student>): Exception {
    if response.Threw? then response.error else NullIdException
  }

  /** Whether `deleteStudent(id)` applies the delete locally: offline, or a successful response. */
  predicate DeleteApplies(online: bool, response: ApiResult<HttpResponse>) {
    !online || (response.Returned? && response.value.IsSuccessful())
  }

  /** The table after the online branch of `fetchStudent`: the reply is upserted only if it carries an id. */
  function AfterFetchStudent(rows: map<int, StudentEntity>, reply: Student): (r: map<int, StudentEntity>)
    requires WellKeyed(rows)
    ensures WellKeyed(r)
  {
    if reply.id.Some? then WithStudents(rows, [ToEntity(reply)]) else rows
  }

  /** The course name shown beside a student: its course's name, or "" without a student or course. */
  function CourseNameOf(courseRows: map<int, RoomCourseDao.CourseEntity>, student: Option<StudentEntity>): (name: string)
    requires RoomCourseDao.WellKeyed(courseRows)
    ensures student.Some? && student.value.courseId in courseRows ==> name == courseRows[student.value.courseId].name
    ensures student.None? || student.value.courseId !in courseRows ==> name == ""
  {
    if student.None? then ""
    else match RoomCourseDao.CourseById(courseRows, Some(student.value.courseId))
      case Some(c) => c.name
      case None => ""
  }

  /**
   * After an online `fetchStudent(id)` whose reply carries the requested id, the shown
   * student is the reply; a reply with another id, or none, does not change what is
   * found under the requested id.
   */
  lemma FetchStudentShowsReply(rows: map<int, StudentEntity>, id: int, reply: Student)
    requires WellKeyed(rows)
    ensures reply.id == Some(id) ==> StudentById(AfterFetchStudent(rows, reply), Some(id)) == Some(ToEntity(reply))
    ensures reply.id != Some(id) ==> StudentById(AfterFetchStudent(rows, reply), Some(id)) == StudentById(rows, Some(id))
  {
    if reply.id.Some? {
      UpsertSpec(rows, [ToEntity(reply)], EntityId);
      assert LastOfKey([ToEntity(reply)], EntityId, 0);
      assert KeysOf([ToEntity(reply)], EntityId) == {reply.id.value};
    }
  }

  class StudentViewModel {
    const studentDao: StudentDao
    const courseDao: RoomCourseDao.CourseDao
    const interceptor: ResponseOriginInterceptor
    var dataSource: Option<string>
    var selectedStudent: Option<Student>
    var students: seq<Student>
    var isLoading: bool
    var courseName: Option<string>

    ghost predicate Valid()
      reads this, studentDao, courseDao
    {
      studentDao.Valid() && courseDao.Valid()
    }

    constructor (studentDao: StudentDao, courseDao: RoomCourseDao.CourseDao, interceptor: ResponseOriginInterceptor)
      requires studentDao.Valid() && courseDao.Valid()
      ensures Valid()
      ensures this.studentDao == studentDao && this.courseDao == courseDao && this.interceptor == interceptor
      ensures dataSource == None && selectedStudent == None && students == [] && !isLoading && courseName == None
    {
      this.studentDao := studentDao;
      this.courseDao := courseDao;
      this.interceptor := interceptor;
      dataSource := None;
      selectedStudent := None;
      students := [];
      isLoading := false;
      courseName := None;
    }

    /**
     * `fetchStudent`. Online, the HTTP response of the call (`origin`) passes the client's
     * interceptor, which records its origin in the tracker; a reply with an id is upserted
     * and `dataSource` takes the tracker's value. Offline, `dataSource` is "LOCAL". The
     * student is then read back by the requested id, with its course's name. If the call
     * throws, only `dataSource` changes, to "ERROR".
     */
    method FetchStudent(id: int, online: bool, response: ApiResult<Student>, origin: Response)
      requires Valid()
      modifies this, studentDao, interceptor.tracker
      ensures Valid() && !isLoading && students == old(students)
      ensures interceptor.tracker.source ==
        if online && response.Returned? then Some(Classify(origin)) else old(interceptor.tracker.source)
      ensures online && response.Threw? ==>
        && dataSource == Some("ERROR")
        && studentDao.rows == old(studentDao.rows)
        && selectedStudent == old(selectedStudent) && courseName == old(courseName)
      ensures !(online && response.Threw?) ==>
        && studentDao.rows == (if online then AfterFetchStudent(old(studentDao.rows), response.value) else old(studentDao.rows))
        && dataSource == (if online then Some(Classify(origin)) else Some("LOCAL"))
        && selectedStudent == (match StudentById(studentDao.rows, Some(id))
                                 case Some(e) => Some(ToStudent(e))
                                 case None => None)
        && courseName == Some(CourseNameOf(courseDao.rows, StudentById(studentDao.rows, Some(id))))
    {
      isLoading := true;
      if online {
        if response.Threw? {
          dataSource := Some("ERROR");
          isLoading := false;
          return;
        }
        var _ := interceptor.Intercept(origin);
        var result := response.value;
        if result.id.Some? {
          var _ := studentDao.InsertStudent(ToEntity(result));
        }
        dataSource := interceptor.tracker.source;
      } else {
        dataSource := Some("LOCAL");
      }
      var localStudent := StudentById(studentDao.rows, Some(id));
      selectedStudent := if localStudent.Some? then Some(ToStudent(localStudent.value)) else None;
      courseName := Some(CourseNameOf(courseDao.rows, localStudent));
      isLoading := false;
    }

    /**
     * `fetchStudentsForCourse`. Online, the HTTP response of the call (`origin`) passes the
     * client's interceptor, which records its origin in the tracker; the fetched students
     * replace the course's slice and `dataSource` takes the tracker's value. Offline, the
     * table is untouched and `dataSource` is "LOCAL". The exposed list is then the course's
     * listing. If the call throws, or a student has no id, the table is untouched and the
     * list is emptied.
     */
    method FetchStudentsForCourse(courseId: int, online: bool, response: ApiResult<seq<Student>>, origin: Response)
      requires Valid()
      modifies this, studentDao, interceptor.tracker
      ensures Valid() && !isLoading
      ensures interceptor.tracker.source ==
        if online && response.Returned? then Some(Classify(origin)) else old(interceptor.tracker.source)
      ensures selectedStudent == old(selectedStudent)
      ensures courseName == old(courseName)
      ensures studentDao.rows ==
        if online && FetchSucceeds(response) then RefreshedSlice(old(studentDao.rows), courseId, response.value)
        else old(studentDao.rows)
      ensures students ==
        if online && !FetchSucceeds(response) then [] else StudentList(studentDao.rows, courseId)
      ensures dataSource ==
        if !online then Some("LOCAL")
        else if FetchSucceeds(response) then Some(Classify(origin))
        else old(dataSource)
    {
      if online && response.Returned? {
        var _ := interceptor.Intercept(origin);
      }
      isLoading := true;
      if online {
        if !FetchSucceeds(response) {
          students := [];
          isLoading := false;
          return;
        }
        var studentEntities := SliceEntities(response.value, courseId);
        studentDao.DeleteStudentsByCourse(courseId);
        studentDao.InsertStudents(studentEntities);
        dataSource := interceptor.tracker.source;
        students := StudentList(studentDao.rows, courseId);
      } else {
        dataSource := Some("LOCAL");
        students := StudentList(studentDao.rows, courseId);
      }
      isLoading := false;
    }

    /**
     * `deleteStudent`. A null id changes nothing. Otherwise the row and the list entries
     * with that id go, offline or after a successful response, and nothing else changes.
     */
    method DeleteStudent(studentId: Option<int>, online: bool, response: ApiResult<HttpResponse>)
      requires Valid()
      modifies this, studentDao
      ensures Valid() && dataSource == old(dataSource)
      ensures selectedStudent == old(selectedStudent) && courseName == old(courseName)
      ensures studentId.None? ==> unchanged(this, studentDao)
      ensures studentId.Some? ==> !isLoading
      ensures studentId.Some? && DeleteApplies(online, response) ==>
        && studentDao.rows == WithoutStudent(old(studentDao.rows), studentId)
        && students == WithoutStudentId(old(students), studentId.value)
      ensures studentId.Some? && !DeleteApplies(online, response) ==>
        studentDao.rows == old(studentDao.rows) && students == old(students)
    {
      if studentId.None? {
        return;
      }
      isLoading := true;
      if DeleteApplies(online, response) {
        studentDao.DeleteStudent(studentId);
        students := WithoutStudentId(students, studentId.value);
      }
      isLoading := false;
    }

    /**
     * `addStudent`. Offline: only `onError`. Online, the server's student is upserted and
     * appended to the exposed list, then `onSuccess`; if the call throws, or its reply has
     * no id, only `onError` runs.
     */
    method AddStudent(online: bool, response: ApiResult<Student>) returns (callback: Callback)
      requires Valid()
      modifies this, studentDao
      ensures Valid() && !isLoading && dataSource == old(dataSource)
      ensures selectedStudent == old(selectedStudent) && courseName == old(courseName)
      ensures !online ==>
        && callback == OnError("No internet connection")
        && studentDao.rows == old(studentDao.rows) && students == old(students)
      ensures online && WriteSucceeds(response) ==>
        && callback == OnSuccess
        && studentDao.rows == WithStudents(old(studentDao.rows), [ToEntity(response.value)])
        && students == old(students) + [response.value]
      ensures online && !WriteSucceeds(response) ==>
        && callback == OnError(MessageOr(WriteFailure(response), "Unknown error"))
        && studentDao.rows == old(studentDao.rows) && students == old(students)
    {
      isLoading := true;
      if !online {
        callback := OnError("No internet connection");
        isLoading := false;
        return;
      }
      if !WriteSucceeds(response) {
        callback := OnError(MessageOr(WriteFailure(response), "Unknown error"));
      } else {
        var addedStudent := response.value;
        var _ := studentDao.InsertStudent(ToEntity(addedStudent));
        students := students + [addedStudent];
        callback := OnSuccess;
      }
      isLoading := false;
    }

    /**
     * `updateStudent`. Offline: only `onError`. Online, the server's student is upserted
     * and replaces the list entries with its id, then `onSuccess`; if the call throws, or
     * its reply has no id, only `onError` runs. `student` is what is sent.
     */
    method UpdateStudent(student: Student, online: bool, response: ApiResult<Student>) returns (callback: Callback)
      requires Valid()
      modifies this, studentDao
      ensures Valid() && !isLoading && dataSource == old(dataSource)
      ensures selectedStudent == old(selectedStudent) && courseName == old(courseName)
      ensures !online ==>
        && callback == OnError("No internet connection")
        && studentDao.rows == old(studentDao.rows) && students == old(students)
      ensures online && WriteSucceeds(response) ==>
        && callback == OnSuccess
        && studentDao.rows == WithStudents(old(studentDao.rows), [ToEntity(response.value)])
        && students == ReplaceById(old(students), response.value)
      ensures online && !WriteSucceeds(response) ==>
        && callback == OnError(MessageOr(WriteFailure(response), "Unknown error"))
        && studentDao.rows == old(studentDao.rows) && students == old(students)
    {
      isLoading := true;
      if !online {
        callback := OnError("No internet connection");
        isLoading := false;
        return;
      }
      if !WriteSucceeds(response) {
        callback := OnError(MessageOr(WriteFailure(response), "Unknown error"));
      } else {
        var updatedStudent := response.value;
        var _ := studentDao.InsertStudent(ToEntity(updatedStudent));
        students := ReplaceById(students, updatedStudent);
        callback := OnSuccess;
      }
      isLoading := false;
    }

    /** `clearDataSource`. */
    method ClearDataSource()
      modifies this
      ensures dataSource == None
      ensures students == old(students) && selectedStudent == old(selectedStudent)
      ensures isLoading == old(isLoading) && courseName == old(courseName)
    {
      dataSource := None;
    }
  }
}
