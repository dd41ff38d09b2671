/**
 * `CourseViewModel`: the course screen's state and its read-through and
 * write-through operations over the course table. Each operation runs to
 * completion; connectivity and the remote outcome are parameters.
 */
module CourseViewModels {
  import opened Common
  import opened Names
  import opened Tables
  import opened Lists
  import opened RoomCourseDao
  import opened ResponseOrigin

  /** `model.Course`: what the API returns and the screen shows; the id is null until the server assigns one. */
  datatype Course = Course(
    id: Option<int>,
    name: string,
    description: string,
    imageUrl: Option<string>,
    schedule: string,
    professor: string
  )

  /** The row a course from the server is stored as; `id!!` demands the id. */
  function ToEntity(c: Course): (e: CourseEntity)
    requires c.id.Some?
    ensures ToCourse(e) == c
  {
    CourseEntity(c.id.value, c.name, c.description, c.imageUrl, c.schedule, c.professor)
  }

  /** The course a row is shown as. */
  function ToCourse(e: CourseEntity): (c: Course)
    ensures c.id == Some(e.id)
  {
    Course(Some(e.id), e.name, e.description, e.imageUrl, e.schedule, e.professor)
  }

  lemma EntityRoundTrip(e: CourseEntity)
    ensures ToEntity(ToCourse(e)) == e
  {
  }

  /** Every course carries an id, so mapping the list with `id!!` does not throw. */
  predicate Identified(courses: seq<Course>) {
    forall i | 0 <= i < |courses| :: courses[i].id.Some?
  }

  function ToEntities(courses: seq<Course>): (es: seq<CourseEntity>)
    requires Identified(courses)
    ensures |es| == |courses|
    ensures forall i | 0 <= i < |es| :: es[i] == ToEntity(courses[i])
  {
    seq(|courses|, i requires 0 <= i < |courses| => ToEntity(courses[i]))
  }

  /** The exposed list: the course table as `getAllCourses` lists it, as `Course` values. */
  function CourseList(rows: map<int, CourseEntity>): (r: seq<Course>)
    requires WellKeyed(rows)
  {
    ToCourses(AllCourses(rows))
  }

  function ToCourses(es: seq<CourseEntity>): (cs: seq<Course>)
    ensures |cs| == |es|
    ensures forall i | 0 <= i < |es| :: cs[i] == ToCourse(es[i])
  {
    seq(|es|, i requires 0 <= i < |es| => ToCourse(es[i]))
  }

  /**
   * The exposed list is derived from the store alone: it shows every stored course
   * exactly once, nothing else, ascending by name.
   */
  lemma CourseListIsStoreListing(rows: map<int, CourseEntity>)
    requires WellKeyed(rows)
    ensures |CourseList(rows)| == |rows|
    ensures forall i | 0 <= i < |CourseList(rows)| ::
      && CourseList(rows)[i].id.Some?
      && CourseList(rows)[i].id.value in rows
      && ToCourse(rows[CourseList(rows)[i].id.value]) == CourseList(rows)[i]
    ensures forall k | k in rows :: ToCourse(rows[k]) in CourseList(rows)
    ensures forall i, j | 0 <= i < j < |CourseList(rows)| ::
      CourseList(rows)[i].id != CourseList(rows)[j].id
    ensures forall i, j | 0 <= i < j < |CourseList(rows)| ::
      NameLe(CourseList(rows)[i].name, CourseList(rows)[j].name)
  {
    var es := AllCourses(rows);
    var r := CourseList(rows);
    forall k | k in rows
      ensures ToCourse(rows[k]) in r
    {
      var i :| 0 <= i < |es| && es[i] == rows[k];
      assert r[i] == ToCourse(rows[k]);
    }
  }

  /** A course the server created or updated is listed, with its server-assigned id, once it is stored. */
  lemma StoredCourseIsListed(rows: map<int, CourseEntity>, course: Course)
    requires WellKeyed(rows)
    requires course.id.Some?
    ensures course in CourseList(WithCourses(rows, [ToEntity(course)]))
  {
    var after := WithCourses(rows, [ToEntity(course)]);
    InsertThenGetById(rows, ToEntity(course));
    CourseListIsStoreListing(after);
    assert ToCourse(after[course.id.value]) == course;
  }

  /** A course deleted from the table is no longer listed. */
  lemma DeletedCourseIsNotListed(rows: map<int, CourseEntity>, courseId: int)
    requires WellKeyed(rows)
    ensures WellKeyed(rows - {courseId})
    ensures forall i | 0 <= i < |CourseList(rows - {courseId})| :: CourseList(rows - {courseId})[i].id != Some(courseId)
  {
    CourseListIsStoreListing(rows - {courseId});
  }

  /** Whether the online branch of `fetchCourses` runs to its end. */
  predicate FetchSucceeds(response: ApiResult<seq<Course>>) {
    response.Returned? && Identified(response.value)
  }

  /** The course table after a successful online fetch: `deleteAllCourses` then `insertCourses`. */
  function FetchedTable(courses: seq<Course>): (rows: map<int, CourseEntity>)
    requires Identified(courses)
    ensures WellKeyed(rows)
  {
    WithCourses(map[], ToEntities(courses))
  }

  /**
   * A successful online fetch replaces the table wholesale: it holds exactly the ids of
   * the fetched courses, each with the last fetched course of that id.
   */
  lemma FetchedTableHoldsExactlyFetched(courses: seq<Course>)
    requires Identified(courses)
    ensures forall k :: k in FetchedTable(courses) <==>
      exists i :: 0 <= i < |courses| && courses[i].id == Some(k)
    ensures forall i | 0 <= i < |courses| && (forall j | i < j < |courses| :: courses[j].id != courses[i].id) ::
      ToCourse(FetchedTable(courses)[courses[i].id.value]) == courses[i]
  {
    var es := ToEntities(courses);
    UpsertSpec(map[], es, EntityId);
    forall k
      ensures k in FetchedTable(courses) <==> exists i :: 0 <= i < |courses| && courses[i].id == Some(k)
    {
      if k in FetchedTable(courses) {
        var i :| 0 <= i < |es| && EntityId(es[i]) == k;
        assert courses[i].id == Some(k);
      }
      if exists i :: 0 <= i < |courses| && courses[i].id == Some(k) {
        var i :| 0 <= i < |courses| && courses[i].id == Some(k);
        assert EntityId(es[i]) == k;
      }
    }
    forall i | 0 <= i < |courses| && (forall j | i < j < |courses| :: courses[j].id != courses[i].id)
      ensures ToCourse(FetchedTable(courses)[courses[i].id.value]) == courses[i]
    {
      assert LastOfKey(es, EntityId, i);
    }
  }

  /** A fetch that returns one course lists exactly that course, whatever was stored before. */
  lemma SingleFetchListsIt(course: Course)
    requires course.id.Some?
    ensures CourseList(FetchedTable([course])) == [course]
  {
    var rows := FetchedTable([course]);
    FetchedTableHoldsExactlyFetched([course]);
    assert rows.Keys == {course.id.value} by {
      forall k
        ensures k in rows <==> k == course.id.value
      {
        if k == course.id.value {
          assert [course][0].id == Some(k);
        }
      }
    }
    CourseListIsStoreListing(rows);
    var listed := CourseList(rows);
    assert |listed| == 1;
    assert ToCourse(rows[course.id.value]) == course;
    assert course in listed;
  }

  /** The exposed list after a successful delete: `filter { it.id != courseId }`. */
  function WithoutCourseId(courses: seq<Course>, courseId: int): seq<Course> {
    Filter(courses, (c: Course) => c.id != Some(courseId))
  }

  /**
   * Deleting from the exposed list drops exactly the entries with that id, keeps the
   * others in their order, and leaves a list without that id unchanged.
   */
  lemma WithoutCourseIdDropsOnlyIt(courses: seq<Course>, courseId: int, a: seq<Course>, b: seq<Course>)
    requires courses == a + b
    ensures forall i | 0 <= i < |WithoutCourseId(courses, courseId)| ::
      WithoutCourseId(courses, courseId)[i].id != Some(courseId)
    ensures forall i | 0 <= i < |courses| && courses[i].id != Some(courseId) ::
      courses[i] in WithoutCourseId(courses, courseId)
    ensures WithoutCourseId(courses, courseId) == WithoutCourseId(a, courseId) + WithoutCourseId(b, courseId)
    ensures (forall i | 0 <= i < |courses| :: courses[i].id != Some(courseId)) ==>
      WithoutCourseId(courses, courseId) == courses
  {
    var keep := (c: Course) => c.id != Some(courseId);
    FilterConcat(a, b, keep);
    if forall i | 0 <= i < |courses| :: courses[i].id != Some(courseId) {
      FilterKeepsAll(courses, keep);
    }
  }

  /** Whether `deleteCourse(id)` applies the delete locally: offline, or a successful response. */
  predicate DeleteApplies(online: bool, response: ApiResult<HttpResponse>) {
    !online || (response.Returned? && response.value.IsSuccessful())
  }

  /** Whether an add or update runs to `onSuccess`: the call returned a course with an id. */
  predicate WriteSucceeds(response: ApiResult<Course>) {
    response.Returned? && response.value.id.Some?
  }

  /** The exception an unsuccessful add or update ends in: the call's own, or the NPE of `id!!`. */
  function WriteFailure(response: ApiResult<Course>): Exception {
    if response.Threw? then response.error else NullIdException
  }

  class CourseViewModel {
    const courseDao: CourseDao
    const interceptor: ResponseOriginInterceptor
    var dataSource: Option<string>
    var courses: seq<Course>
    var isLoading: bool

    ghost predicate Valid()
      reads this, courseDao
    {
      courseDao.Valid()
    }

    constructor (courseDao: CourseDao, interceptor: ResponseOriginInterceptor)
      requires courseDao.Valid()
      ensures Valid()
      ensures this.courseDao == courseDao && this.interceptor == interceptor
      ensures dataSource == None && courses == [] && !isLoading
    {
      this.courseDao := courseDao;
      this.interceptor := interceptor;
      dataSource := None;
      courses := [];
      isLoading := false;
    }

    /**
     * `fetchCourses`. Online, the HTTP response of the call (`origin`) passes the client's
     * interceptor, which records its origin in the tracker; then the fetched list replaces
     * the table and `dataSource` takes the tracker's value. Offline, the table is untouched
     * and `dataSource` is "LOCAL". In both cases the exposed list is then read back from the
     * table. If the call throws, or a course has no id, the table, the list and `dataSource`
     * are kept.
     */
    method FetchCourses(online: bool, response: ApiResult<seq<Course>>, origin: Response)
      requires Valid()
      modifies this, courseDao, interceptor.tracker
      ensures Valid() && !isLoading
      ensures interceptor.tracker.source ==
        if online && response.Returned? then Some(Classify(origin)) else old(interceptor.tracker.source)
      ensures courseDao.rows ==
        if online && FetchSucceeds(response) then FetchedTable(response.value) else old(courseDao.rows)
      ensures courses ==
        if online && !FetchSucceeds(response) then old(courses) else CourseList(courseDao.rows)
      ensures dataSource ==
        if !online then Some("LOCAL")
        else if FetchSucceeds(response) then Some(Classify(origin))
        else old(dataSource)
    {
      isLoading := true;
      var threw := false;
      if online {
        if response.Returned? {
          var _ := interceptor.Intercept(origin);
        }
        if response.Threw? || !Identified(response.value) {
          threw := true;
        } else {
          var result := ToEntities(response.value);
          dataSource := interceptor.tracker.source;
          courseDao.DeleteAllCourses();
          courseDao.InsertCourses(result);
        }
      } else {
        dataSource := Some("LOCAL");
      }
      if !threw {
        courses := CourseList(courseDao.rows);
      }
      isLoading := false;
    }

    /**
     * `deleteCourse`. A null id changes nothing. Otherwise the row and the list entries
     * with that id go, offline or after a successful response, and nothing else changes.
     */
    method DeleteCourse(courseId: Option<int>, online: bool, response: ApiResult<HttpResponse>)
      requires Valid()
      modifies this, courseDao
      ensures Valid() && dataSource == old(dataSource)
      ensures courseId.None? ==> unchanged(this, courseDao)
      ensures courseId.Some? ==> !isLoading
      ensures courseId.Some? && DeleteApplies(online, response) ==>
        && courseDao.rows == old(courseDao.rows) - {courseId.value}
        && courses == WithoutCourseId(old(courses), courseId.value)
      ensures courseId.Some? && !DeleteApplies(online, response) ==>
        courseDao.rows == old(courseDao.rows) && courses == old(courses)
    {
      if courseId.None? {
        return;
      }
      var id := courseId.value;
      isLoading := true;
      if DeleteApplies(online, response) {
        courseDao.DeleteCourse(id);
        courses := WithoutCourseId(courses, id);
      }
      isLoading := false;
    }

    /**
     * `addCourse`. No image file: only `onError`, and no remote call. Otherwise the server's
     * course is upserted, the list is read back from the table and `onSuccess` runs; if the
     * call throws, or its reply has no id, only `onError` runs.
     */
    method AddCourse(imageFileCreated: bool, response: ApiResult<Course>) returns (callback: Callback)
      requires Valid()
      modifies this, courseDao
      ensures Valid() && !isLoading && dataSource == old(dataSource)
      ensures !imageFileCreated ==>
        && callback == OnError("Error processing image file")
        && courseDao.rows == old(courseDao.rows) && courses == old(courses)
      ensures imageFileCreated && WriteSucceeds(response) ==>
        && callback == OnSuccess
        && courseDao.rows == WithCourses(old(courseDao.rows), [ToEntity(response.value)])
        && courses == CourseList(courseDao.rows)
      ensures imageFileCreated && !WriteSucceeds(response) ==>
        && callback == OnError(MessageOr(WriteFailure(response), "Unknown error"))
        && courseDao.rows == old(courseDao.rows) && courses == old(courses)
    {
      isLoading := true;
      if !imageFileCreated {
        callback := OnError("Error processing image file");
        isLoading := false;
        return;
      }
      if !WriteSucceeds(response) {
        callback := OnError(MessageOr(WriteFailure(response), "Unknown error"));
      } else {
        courseDao.InsertCourses([ToEntity(response.value)]);
        courses := CourseList(courseDao.rows);
        callback := OnSuccess;
      }
      isLoading := false;
    }

    /**
     * `updateCourse`: the same flow as `addCourse`, with the server's updated course.
     * `course` is what is sent; only the reply reaches the table.
     */
    method UpdateCourse(course: Course, imageFileCreated: bool, response: ApiResult<Course>)
      returns (callback: Callback)
      requires Valid()
      modifies this, courseDao
      ensures Valid() && !isLoading && dataSource == old(dataSource)
      ensures !imageFileCreated ==>
        && callback == OnError("Error processing image file")
        && courseDao.rows == old(courseDao.rows) && courses == old(courses)
      ensures imageFileCreated && WriteSucceeds(response) ==>
        && callback == OnSuccess
        && courseDao.rows == WithCourses(old(courseDao.rows), [ToEntity(response.value)])
        && courses == CourseList(courseDao.rows)
      ensures imageFileCreated && !WriteSucceeds(response) ==>
        && callback == OnError(MessageOr(WriteFailure(response), "Unknown error"))
        && courseDao.rows == old(courseDao.rows) && courses == old(courses)
    {
      isLoading := true;
      if !imageFileCreated {
        callback := OnError("Error processing image file");
        isLoading := false;
        return;
      }
      if !WriteSucceeds(response) {
        callback := OnError(MessageOr(WriteFailure(response), "Unknown error"));
      } else {
        var updated := response.value;
        courseDao.InsertCourses([ToEntity(updated)]);
        courses := CourseList(courseDao.rows);
        callback := OnSuccess;
      }
      isLoading := false;
    }

    /** `clearDataSource`. */
    method ClearDataSource()
      modifies this
      ensures dataSource == None
      ensures courses == old(courses) && isLoading == old(isLoading)
    {
      dataSource := None;
    }
  }
}
