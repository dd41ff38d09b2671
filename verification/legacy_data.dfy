/**
 * The legacy repositories (`data/CourseData.kt`, `data/StudentData.kt`): write-through
 * over the legacy database. They never check connectivity; the remote outcome and the
 * image file step are parameters, and failures come back as `Result` values, except
 * that a refresh swallows only `IOException`.
 */
module LegacyRepositories {
  import opened Common
  import opened LegacyModels
  import opened Tables
  import opened LegacyStore

  /** What a refresh lets escape from a failed remote call: everything but an `IOException`. */
  function Escaping(e: Exception): (thrown: Option<Exception>)
    ensures thrown.None? <==> e.kind == IOException
    ensures thrown.Some? ==> thrown.value == e
  {
    if e.kind == IOException then None else Some(e)
  }

  /** The failure `addCourse` reports for a null image URI. */
  const ImageUriNull := Exception(IOException, Some("Image URI is null"))

  /** The failure a delete reports for a non-2xx response: "Error deleting <what>: <code>". */
  function DeleteRefused(what: string, code: int): (e: Exception)
    ensures e.kind == IOException
    ensures e.message == Some("Error deleting " + what + ": " + IntToString(code))
  {
    Exception(IOException, Some("Error deleting " + what + ": " + IntToString(code)))
  }

  class CourseData {
    const courseDao: CourseDao

    ghost predicate Valid()
      reads this, courseDao, courseDao.db
    {
      courseDao.db.Valid()
    }

    constructor (courseDao: CourseDao)
      ensures this.courseDao == courseDao
    {
      this.courseDao := courseDao;
    }

    /** `getCourseById`. */
    method GetCourseById(id: Option<int>) returns (course: Option<Course>)
      requires Valid()
      ensures course.Some? <==> id.Some? && id.value in courseDao.db.store.courses
      ensures course.Some? ==> course.value == courseDao.db.store.courses[id.value]
    {
      course := CourseById(courseDao.db.store, id);
    }

    /** `courseHasStudents`: whether the count of the course's students is positive. */
    method CourseHasStudents(courseId: int) returns (has: bool)
      requires Valid()
      ensures has <==> exists k :: k in courseDao.db.store.students && courseDao.db.store.students[k].courseId == courseId
    {
      has := StudentCount(courseDao.db.store, courseId) > 0;
    }

    /**
     * `refreshCourses`: clear, then insert the fetched list. Through the cascade the
     * student table is left empty. A failed call changes nothing and escapes unless it
     * is an `IOException`.
     */
    method RefreshCourses(response: ApiResult<seq<Course>>) returns (thrown: Option<Exception>)
      requires Valid()
      modifies courseDao.db
      ensures Valid()
      ensures response.Returned? ==>
        && thrown == None
        && courseDao.db.store == PutCourses(ClearCourses(old(courseDao.db.store)), response.value)
        && courseDao.db.store.students == map[]
        && (CoursesIdentified(response.value) ==> courseDao.db.store.courses == RowsMap(response.value, CourseKey))
      ensures response.Threw? ==>
        thrown == Escaping(response.error) && courseDao.db.store == old(courseDao.db.store)
    {
      match response
      case Threw(e) =>
        thrown := Escaping(e);
      case Returned(courses) =>
        RefreshCoursesEmptiesStudents(courseDao.db.store, courses);
        if CoursesIdentified(courses) {
          RefreshedCoursesAreTheList(courseDao.db.store, courses);
        }
        courseDao.ClearAllCourses();
        courseDao.InsertCourses(courses);
        thrown := None;
    }

    /**
     * `addCourse`: a null image URI fails at once; a failed image file step or remote
     * call fails with its exception; otherwise the server's course is inserted (REPLACE)
     * and returned.
     */
    method AddCourse(hasImageUri: bool, imageFile: Option<Exception>, response: ApiResult<Course>)
      returns (result: Result<Course>)
      requires Valid()
      modifies courseDao.db
      ensures Valid()
      ensures !hasImageUri ==> result == Failure(ImageUriNull)
      ensures hasImageUri && imageFile.Some? ==> result == Failure(imageFile.value)
      ensures hasImageUri && imageFile.None? && response.Threw? ==> result == Failure(response.error)
      ensures result.Failure? ==> courseDao.db.store == old(courseDao.db.store)
      ensures hasImageUri && imageFile.None? && response.Returned? ==>
        && result == Success(response.value)
        && courseDao.db.store == PutCourse(old(courseDao.db.store), response.value)
    {
      if !hasImageUri {
        return Failure(ImageUriNull);
      }
      if imageFile.Some? {
        return Failure(imageFile.value);
      }
      match response
      case Threw(e) =>
        result := Failure(e);
      case Returned(newCourse) =>
        var _ := courseDao.InsertCourse(newCourse);
        result := Success(newCourse);
    }

    /** `updateCourse`: the server's course is written with `@Update` and returned. */
    method UpdateCourse(response: ApiResult<Course>) returns (result: Result<Course>)
      requires Valid()
      modifies courseDao.db
      ensures Valid()
      ensures response.Threw? ==>
        result == Failure(response.error) && courseDao.db.store == old(courseDao.db.store)
      ensures response.Returned? ==>
        && result == Success(response.value)
        && courseDao.db.store == UpdateCourseRow(old(courseDao.db.store), response.value)
    {
      match response
      case Threw(e) =>
        result := Failure(e);
      case Returned(updatedCourse) =>
        courseDao.UpdateCourse(updatedCourse);
        result := Success(updatedCourse);
    }

    /** `deleteCourse`: the local delete (with its cascade) happens only after a 2xx response. */
    method DeleteCourse(id: Option<int>, response: ApiResult<HttpResponse>) returns (result: Result<bool>)
      requires Valid()
      modifies courseDao.db
      ensures Valid()
      ensures response.Threw? ==> result == Failure(response.error)
      ensures response.Returned? && !response.value.IsSuccessful() ==>
        result == Failure(DeleteRefused("course", response.value.code))
      ensures result.Failure? ==> courseDao.db.store == old(courseDao.db.store)
      ensures response.Returned? && response.value.IsSuccessful() ==>
        result == Success(true) && courseDao.db.store == DeleteCourseRow(old(courseDao.db.store), id)
    {
      match response
      case Threw(e) =>
        result := Failure(e);
      case Returned(r) =>
        if r.IsSuccessful() {
          courseDao.DeleteCourse(id);
          result := Success(true);
        } else {
          result := Failure(DeleteRefused("course", r.code));
        }
    }
  }

  class StudentData {
    const studentDao: StudentDao

    ghost predicate Valid()
      reads this, studentDao, studentDao.db
    {
      studentDao.db.Valid()
    }

    constructor (studentDao: StudentDao)
      ensures this.studentDao == studentDao
    {
      this.studentDao := studentDao;
    }

    /** `getStudentById`. */
    method GetStudentById(id: Option<int>) returns (student: Option<Student>)
      requires Valid()
      ensures student.Some? <==> id.Some? && id.value in studentDao.db.store.students
      ensures student.Some? ==> student.value == studentDao.db.store.students[id.value]
    {
      student := StudentById(studentDao.db.store, id);
    }

    /**
     * `refreshStudents`: clear, then insert the fetched list. If the insert is refused
     * (a student of a missing course), the table stays cleared and the refusal escapes.
     * A failed call changes nothing and escapes unless it is an `IOException`.
     */
    method RefreshStudents(response: ApiResult<seq<Student>>) returns (thrown: Option<Exception>)
      requires Valid()
      modifies studentDao.db
      ensures Valid()
      ensures response.Threw? ==>
        thrown == Escaping(response.error) && studentDao.db.store == old(studentDao.db.store)
      ensures response.Returned? ==>
        var cleared := ClearStudents(old(studentDao.db.store));
        match PutStudents(cleared, response.value)
        case Success(t) =>
          && thrown == None && studentDao.db.store == t
          && (StudentsIdentified(response.value) ==> t.students == RowsMap(response.value, StudentKey))
        case Failure(e) => thrown == Some(e) && studentDao.db.store == cleared
    {
      match response
      case Threw(e) =>
        thrown := Escaping(e);
      case Returned(students) =>
        if StudentsIdentified(students) {
          RefreshedStudentsAreTheList(studentDao.db.store, students);
        }
        studentDao.ClearAllStudents();
        thrown := studentDao.InsertStudents(students);
    }

    /**
     * `refreshStudentsByCourse`: delete the course's students, then insert the fetched
     * list, with the same failure behaviour as `refreshStudents`.
     */
    method RefreshStudentsByCourse(courseId: int, response: ApiResult<seq<Student>>) returns (thrown: Option<Exception>)
      requires Valid()
      modifies studentDao.db
      ensures Valid()
      ensures response.Threw? ==>
        thrown == Escaping(response.error) && studentDao.db.store == old(studentDao.db.store)
      ensures response.Returned? ==>
        var cleared := DeleteStudentsOfCourse(old(studentDao.db.store), courseId);
        match PutStudents(cleared, response.value)
        case Success(t) =>
          && thrown == None && studentDao.db.store == t
          && (StudentsIdentified(response.value) ==>
                t.students == Upsert(WithoutChildren(old(studentDao.db.store).students, {courseId}), response.value, StudentKey))
        case Failure(e) => thrown == Some(e) && studentDao.db.store == cleared
    {
      match response
      case Threw(e) =>
        thrown := Escaping(e);
      case Returned(students) =>
        studentDao.DeleteStudentsByCourse(courseId);
        thrown := studentDao.InsertStudents(students);
    }

    /** `addStudent`: the server's student is inserted (REPLACE) and returned, unless the insert is refused. */
    method AddStudent(response: ApiResult<Student>) returns (result: Result<Student>)
      requires Valid()
      modifies studentDao.db
      ensures Valid()
      ensures response.Threw? ==> result == Failure(response.error)
      ensures response.Returned? ==>
        match PutStudent(old(studentDao.db.store), response.value)
        case Success(t) => result == Success(response.value) && studentDao.db.store == t
        case Failure(e) => result == Failure(e)
      ensures result.Failure? ==> studentDao.db.store == old(studentDao.db.store)
    {
      match response
      case Threw(e) =>
        result := Failure(e);
      case Returned(newStudent) =>
        var rowId := studentDao.InsertStudent(newStudent);
        if rowId.Failure? {
          result := Failure(rowId.error);
        } else {
          result := Success(newStudent);
        }
    }

    /** `updateStudent`: the server's student is written with `@Update` and returned, unless the write is refused. */
    method UpdateStudent(response: ApiResult<Student>) returns (result: Result<Student>)
      requires Valid()
      modifies studentDao.db
      ensures Valid()
      ensures response.Threw? ==> result == Failure(response.error)
      ensures response.Returned? ==>
        match UpdateStudentRow(old(studentDao.db.store), response.value)
        case Success(t) => result == Success(response.value) && studentDao.db.store == t
        case Failure(e) => result == Failure(e)
      ensures result.Failure? ==> studentDao.db.store == old(studentDao.db.store)
    {
      match response
      case Threw(e) =>
        result := Failure(e);
      case Returned(updatedStudent) =>
        var thrown := studentDao.UpdateStudent(updatedStudent);
        if thrown.Some? {
          result := Failure(thrown.value);
        } else {
          result := Success(updatedStudent);
        }
    }

    /** `deleteStudent`: the local delete happens only after a 2xx response. */
    method DeleteStudent(id: Option<int>, response: ApiResult<HttpResponse>) returns (result: Result<bool>)
      requires Valid()
      modifies studentDao.db
      ensures Valid()
      ensures response.Threw? ==> result == Failure(response.error)
      ensures response.Returned? && !response.value.IsSuccessful() ==>
        result == Failure(DeleteRefused("student", response.value.code))
      ensures result.Failure? ==> studentDao.db.store == old(studentDao.db.store)
      ensures response.Returned? && response.value.IsSuccessful() ==>
        result == Success(true) && studentDao.db.store == DeleteStudentRow(old(studentDao.db.store), id)
    {
      match response
      case Threw(e) =>
        result := Failure(e);
      case Returned(r) =>
        if r.IsSuccessful() {
          studentDao.DeleteStudent(id);
          result := Success(true);
        } else {
          result := Failure(DeleteRefused("student", r.code));
        }
    }
  }
}
