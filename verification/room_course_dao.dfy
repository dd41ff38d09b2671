/**
 * The course table of the current schema (`CourseEntity`) and its DAO. The table
 * is a map from primary key to row; queries are functions of it, and the DAO
 * object owns it and replaces it on every write.
 */
module RoomCourseDao {
  import opened Common
  import opened Names
  import opened Tables

  datatype CourseEntity = CourseEntity(
    id: int,
    name: string,
    description: string,
    imageUrl: Option<string>,
    schedule: string,
    professor: string
  )

  function EntityId(c: CourseEntity): int { c.id }

  function EntityName(c: CourseEntity): string { c.name }

  /** Every row is stored under its own id. */
  ghost predicate WellKeyed(rows: map<int, CourseEntity>) {
    Keyed(rows, EntityId)
  }

  /** `getAllCourses`: every row exactly once, ascending by name. */
  function AllCourses(rows: map<int, CourseEntity>): (r: seq<CourseEntity>)
    requires WellKeyed(rows)
    ensures |r| == |rows|
    ensures forall i | 0 <= i < |r| :: r[i].id in rows && rows[r[i].id] == r[i]
    ensures forall k | k in rows :: rows[k] in r
    ensures forall i, j | 0 <= i < j < |r| :: r[i].id != r[j].id
    ensures forall i, j | 0 <= i < j < |r| :: NameLe(r[i].name, r[j].name)
  {
    SortedRows(rows, EntityId, EntityName)
  }

  /** `getCourseById`: the row with that id, or null when the id is null or absent. */
  function CourseById(rows: map<int, CourseEntity>, courseId: Option<int>): (r: Option<CourseEntity>)
    requires WellKeyed(rows)
    ensures r.Some? <==> courseId.Some? && courseId.value in rows
    ensures r.Some? ==> r.value.id == courseId.value && r.value in rows.Values
  {
    if courseId.Some? && courseId.value in rows then Some(rows[courseId.value]) else None
  }

  /** The table after `insertCourses(courses)` (REPLACE on a clashing id). */
  function WithCourses(rows: map<int, CourseEntity>, courses: seq<CourseEntity>): (r: map<int, CourseEntity>)
    requires WellKeyed(rows)
    ensures WellKeyed(r)
  {
    UpsertKeyed(rows, courses, EntityId);
    Upsert(rows, courses, EntityId)
  }

  /**
   * `insertCourses` is an upsert by id: afterwards every listed id is present and holds
   * the last listed course with that id, every other row is unchanged, and repeating
   * the call changes nothing.
   */
  lemma InsertCoursesUpserts(rows: map<int, CourseEntity>, courses: seq<CourseEntity>)
    requires WellKeyed(rows)
    ensures WithCourses(rows, courses).Keys == rows.Keys + KeysOf(courses, EntityId)
    ensures forall k | k in rows && k !in KeysOf(courses, EntityId) :: WithCourses(rows, courses)[k] == rows[k]
    ensures forall i | 0 <= i < |courses| && LastOfKey(courses, EntityId, i) ::
      WithCourses(rows, courses)[courses[i].id] == courses[i]
    ensures WithCourses(WithCourses(rows, courses), courses) == WithCourses(rows, courses)
  {
    UpsertSpec(rows, courses, EntityId);
    UpsertIdempotent(rows, courses, EntityId);
  }

  /** An inserted course is what `getCourseById` then returns. */
  lemma InsertThenGetById(rows: map<int, CourseEntity>, course: CourseEntity)
    requires WellKeyed(rows)
    ensures CourseById(WithCourses(rows, [course]), Some(course.id)) == Some(course)
  {
    UpsertSpec(rows, [course], EntityId);
    assert LastOfKey([course], EntityId, 0);
  }

  /** After `deleteAllCourses` the listing is empty. */
  lemma DeleteAllEmpties()
    ensures AllCourses(map[]) == []
  {
  }

  class CourseDao {
    var rows: map<int, CourseEntity>

    ghost predicate Valid()
      reads this
    {
      WellKeyed(rows)
    }

    constructor ()
      ensures Valid() && rows == map[]
    {
      rows := map[];
    }

    /** `insertCourses`. */
    method InsertCourses(courses: seq<CourseEntity>)
      requires Valid()
      modifies this
      ensures Valid()
      ensures rows == WithCourses(old(rows), courses)
    {
      rows := WithCourses(rows, courses);
    }

    /** `deleteAllCourses`. */
    method DeleteAllCourses()
      modifies this
      ensures Valid()
      ensures rows == map[]
    {
      rows := map[];
    }

    /**
     * Delete by id. The course view model calls `deleteCourse` on this DAO although the
     * interface declares no such method; it is given the meaning of the other
     * schema's `DELETE FROM courses WHERE id = :courseId`.
     */
    method DeleteCourse(courseId: int)
      requires Valid()
      modifies this
      ensures Valid()
      ensures rows == old(rows) - {courseId}
    {
      rows := rows - {courseId};
    }
  }
}
