# Student–course system: offline cache reconciliation, in Dafny

This project models the data layer of an Android app that manages courses and the
students enrolled in them. Each read goes to the REST API when the device is online,
writes the reply into a local Room (SQLite) database, and then shows what the
database holds. Offline, it shows the database as it is. Writes go to the API first
and are mirrored into the database. An OkHttp interceptor records whether the last
response came from the network or from the HTTP cache.

The app carries two generations of this layer, and both are modelled:

- **Current schema.**
  - Room DAOs under `data/database/dao`, modules `RoomCourseDao` and `RoomStudentDao`.
  - The view models `CourseViewModel` and `StudentViewModel`, modules `CourseViewModels` and `StudentViewModels`.
  - Here students and courses are independent tables.
- **Legacy schema.**
  - Room DAOs under `dao` with the records under `models`, modules `LegacyModels` and `LegacyStore`.
  - The repositories `CourseData` and `StudentData`, module `LegacyRepositories`.
  - Here `students.courseId` is a foreign key to `courses.id` with ON DELETE CASCADE.

Shared pieces:

- `Tables`: a table as a map from primary key to row, `ORDER BY name ASC` as a sorted listing, and REPLACE as an upsert.
- `Names`: SQLite's BINARY collation, that is code-point order.
- `Lists`: Kotlin's `filter`.
- `Common`: nullable values, exceptions and the outcome of a remote call.
- `Constants`: the form validators.
- `ResponseOrigin`: the interceptor.

The following are parameters of each operation, not things the model computes:

- **Connectivity** is a `bool`.
- **What the remote API did** is an `ApiResult`: it returned a value or threw an exception.
- **The image temp file step** is a `bool` for the view model and an optional exception for the repository.

Each view-model operation runs to completion. `isLoading` is true while it runs and false afterwards.

Where the prose description of the system and the code disagree, the model follows the code:

- **Course writes ignore connectivity.** `CourseViewModel.addCourse` and `updateCourse` never check it. An offline call fails inside the remote call and reaches `onError` with that exception's message. The student writes do check it and report "No internet connection".
- **Origin value.** The interceptor records "INTERNET", not "NETWORK", for a live response.
- **A failed student-list read empties the list.** `fetchStudentsForCourse` sets it to `[]`, while `fetchCourses` keeps the last list.
- **A failed `fetchStudent` sets the origin to "ERROR".** It does not fall back to the local row.
- **The legacy repositories never check connectivity.**
- **A legacy refresh swallows only `IOException`.** Any other failure escapes, and a refused insert after the clear leaves the table cleared.

## Model

| member | source | states |
|---|---|---|
| Names.NameLessIrreflexive | app/src/main/java/com/moviles/studentcoursessystem/data/database/dao/CourseDao.kt:13 | no name sorts before itself under `ORDER BY name` |
| Names.NameLessTransitive | app/src/main/java/com/moviles/studentcoursessystem/data/database/dao/CourseDao.kt:13 | the name order is transitive |
| Names.NameLessTotal | app/src/main/java/com/moviles/studentcoursessystem/data/database/dao/CourseDao.kt:13 | any two distinct names are ordered one way or the other |
| Names.NameLessAsymmetric | app/src/main/java/com/moviles/studentcoursessystem/data/database/dao/CourseDao.kt:13 | the name order is asymmetric, so the listing order is well defined |
| Tables.FirstExists | app/src/main/java/com/moviles/studentcoursessystem/data/database/dao/CourseDao.kt:13-14 | a non-empty table has a row the sorted listing starts with |
| Tables.FirstUnique | app/src/main/java/com/moviles/studentcoursessystem/data/database/dao/CourseDao.kt:13-14 | that first row is unique |
| Tables.SortedKeys | app/src/main/java/com/moviles/studentcoursessystem/data/database/dao/CourseDao.kt:13-14 | the listed keys are exactly the table's keys, each once, in name order |
| Tables.SortedRows | app/src/main/java/com/moviles/studentcoursessystem/data/database/dao/CourseDao.kt:13-14 | `SELECT * ... ORDER BY name ASC` lists every stored row exactly once, nothing else, in non-decreasing name order |
| Tables.UpsertSpec | app/src/main/java/com/moviles/studentcoursessystem/data/database/dao/CourseDao.kt:27-28 | REPLACE of a list: new keys are old keys plus listed keys; unlisted rows unchanged; each key holds its last listed row |
| Tables.UpsertOver | app/src/main/java/com/moviles/studentcoursessystem/data/database/dao/CourseDao.kt:27-28 | the result of a REPLACE on listed keys does not depend on the rows it overwrites |
| Tables.UpsertIsUnion | app/src/main/java/com/moviles/studentcoursessystem/data/database/dao/CourseDao.kt:27-28 | a REPLACE of a list is the old table overridden by the list's own table |
| Tables.UpsertIdempotent | app/src/main/java/com/moviles/studentcoursessystem/data/database/dao/CourseDao.kt:27-28 | replacing the same list twice gives the same table as once |
| Tables.UpsertKeyed | app/src/main/java/com/moviles/studentcoursessystem/data/database/dao/CourseDao.kt:27-28 | REPLACE keeps every row under its own primary key |
| Lists.Filter | app/src/main/java/com/moviles/studentcoursessystem/viewmodel/CourseViewModel.kt:115 | `filter` keeps only elements that pass, drops none that pass, never grows the list |
| Lists.FilterConcat | app/src/main/java/com/moviles/studentcoursessystem/viewmodel/CourseViewModel.kt:115 | `filter` preserves order: filtering a concatenation concatenates the filtered parts |
| Lists.FilterKeepsAll | app/src/main/java/com/moviles/studentcoursessystem/viewmodel/CourseViewModel.kt:115 | filtering a list whose every element passes returns it unchanged |
| Constants.Utf16Length | app/src/main/java/com/moviles/studentcoursessystem/common/Constants.kt:35 | `String.length` is between the code-point count and twice it |
| Constants.CourseNameError | app/src/main/java/com/moviles/studentcoursessystem/common/Constants.kt:33-38 | accepted iff not blank and 10..63 long; a blank name gets "Course name is required" |
| Constants.DescriptionError | app/src/main/java/com/moviles/studentcoursessystem/common/Constants.kt:40-45 | accepted iff not blank and 10..500 long; blank gets "Course description is required" |
| Constants.ScheduleError | app/src/main/java/com/moviles/studentcoursessystem/common/Constants.kt:47-51 | accepted iff not blank and at most 100 long; blank gets "Schedule is required" |
| Constants.ProfessorError | app/src/main/java/com/moviles/studentcoursessystem/common/Constants.kt:53-57 | accepted iff not blank and at most 255 long; blank gets "Professor name is required" |
| Constants.ValidateCourseInput | app/src/main/java/com/moviles/studentcoursessystem/common/Constants.kt:25-60 | exactly the four field keys, each null iff that field is acceptable |
| Constants.StudentNameError | app/src/main/java/com/moviles/studentcoursessystem/common/Constants.kt:70-76 | accepted iff not blank, 2..255 long and only letters and `\s`; blank gets "Name is required" |
| Constants.EmailError | app/src/main/java/com/moviles/studentcoursessystem/common/Constants.kt:78-82 | accepted iff not blank and matching the e-mail pattern; blank gets "Email is required" |
| Constants.PhoneError | app/src/main/java/com/moviles/studentcoursessystem/common/Constants.kt:84-90 | accepted iff not blank, 7..15 long and only digits; blank gets "Phone is required" |
| Constants.CourseIdError | app/src/main/java/com/moviles/studentcoursessystem/common/Constants.kt:92-96 | accepted iff the course id is present and positive |
| Constants.ValidateStudentInput | app/src/main/java/com/moviles/studentcoursessystem/common/Constants.kt:62-99 | exactly the four field keys, each null iff that field is acceptable |
| Constants.AcceptedPhoneLength | app/src/main/java/com/moviles/studentcoursessystem/common/Constants.kt:84-90 | an accepted phone number has 7 to 15 digits, counted either way |
| Constants.AsciiUtf16Length | app/src/main/java/com/moviles/studentcoursessystem/common/Constants.kt:86 | a string without supplementary characters has `length` equal to its character count |
| ResponseOrigin.Classify | app/src/main/java/com/moviles/studentcoursessystem/network/ResponseOriginInterceptor.kt:10-14 | "INTERNET" iff a network response exists; "CACHE" iff only a cache response; "UNKNOWN" iff neither |
| ResponseOrigin.ResponseOriginInterceptor.Intercept | app/src/main/java/com/moviles/studentcoursessystem/network/ResponseOriginInterceptor.kt:7-17 | the response passes through unchanged and the tracker holds its classification |
| RoomCourseDao.AllCourses | app/src/main/java/com/moviles/studentcoursessystem/data/database/dao/CourseDao.kt:13-14 | every stored course once, nothing else, ascending by name |
| RoomCourseDao.CourseById | app/src/main/java/com/moviles/studentcoursessystem/data/database/dao/CourseDao.kt:19-20 | a row iff the id is non-null and stored, and then the row with that id |
| RoomCourseDao.WithCourses | app/src/main/java/com/moviles/studentcoursessystem/data/database/dao/CourseDao.kt:27-28 | `insertCourses` keeps every row under its own id |
| RoomCourseDao.InsertCoursesUpserts | app/src/main/java/com/moviles/studentcoursessystem/data/database/dao/CourseDao.kt:27-28 | `insertCourses` is an upsert by id, last listed wins, and is idempotent |
| RoomCourseDao.InsertThenGetById | app/src/main/java/com/moviles/studentcoursessystem/data/database/dao/CourseDao.kt:19-28 | after inserting a course, `getCourseById` returns it |
| RoomCourseDao.DeleteAllEmpties | app/src/main/java/com/moviles/studentcoursessystem/data/database/dao/CourseDao.kt:34-35 | after `deleteAllCourses` the listing is empty |
| RoomCourseDao.CourseDao.constructor | app/src/main/java/com/moviles/studentcoursessystem/data/database/dao/CourseDao.kt:7-36 | the table starts empty |
| RoomCourseDao.CourseDao.InsertCourses | app/src/main/java/com/moviles/studentcoursessystem/data/database/dao/CourseDao.kt:27-28 | the table becomes the upsert of the list |
| RoomCourseDao.CourseDao.DeleteAllCourses | app/src/main/java/com/moviles/studentcoursessystem/data/database/dao/CourseDao.kt:34-35 | the table becomes empty |
| RoomCourseDao.CourseDao.DeleteCourse | app/src/main/java/com/moviles/studentcoursessystem/viewmodel/CourseViewModel.kt:114 | the row with that id goes and no other changes |
| RoomStudentDao.StudentsByCourse | app/src/main/java/com/moviles/studentcoursessystem/data/database/dao/StudentDao.kt:10-11 | exactly the stored students of that course, each once, ascending by name |
| RoomStudentDao.StudentById | app/src/main/java/com/moviles/studentcoursessystem/data/database/dao/StudentDao.kt:14-15 | a row iff the id is non-null and stored, and then the row with that id |
| RoomStudentDao.WithStudents | app/src/main/java/com/moviles/studentcoursessystem/data/database/dao/StudentDao.kt:19-20 | `insertStudents` keeps every row under its own id |
| RoomStudentDao.WithoutStudent | app/src/main/java/com/moviles/studentcoursessystem/data/database/dao/StudentDao.kt:27-28 | `deleteStudent` removes exactly that id, and nothing for a null id |
| RoomStudentDao.WithoutCourse | app/src/main/java/com/moviles/studentcoursessystem/data/database/dao/StudentDao.kt:32-33 | `deleteStudentsByCourse` removes exactly the course's students |
| RoomStudentDao.InsertStudentsUpserts | app/src/main/java/com/moviles/studentcoursessystem/data/database/dao/StudentDao.kt:19-20 | `insertStudents` is an upsert by id, last listed wins, and is idempotent |
| RoomStudentDao.DeleteStudentRemovesOnlyIt | app/src/main/java/com/moviles/studentcoursessystem/data/database/dao/StudentDao.kt:27-28 | a deleted student is no longer found; deleting an absent id changes nothing |
| RoomStudentDao.DeleteByCourseSeparatesCourses | app/src/main/java/com/moviles/studentcoursessystem/data/database/dao/StudentDao.kt:32-33 | afterwards the course lists nobody and every other course lists what it did |
| RoomStudentDao.StudentDao.constructor | app/src/main/java/com/moviles/studentcoursessystem/data/database/dao/StudentDao.kt:6-34 | the table starts empty |
| RoomStudentDao.StudentDao.InsertStudents | app/src/main/java/com/moviles/studentcoursessystem/data/database/dao/StudentDao.kt:19-20 | the table becomes the upsert of the list |
| RoomStudentDao.StudentDao.InsertStudent | app/src/main/java/com/moviles/studentcoursessystem/data/database/dao/StudentDao.kt:23-24 | the table becomes the upsert of the row, and the returned row id is its primary key |
| RoomStudentDao.StudentDao.DeleteStudent | app/src/main/java/com/moviles/studentcoursessystem/data/database/dao/StudentDao.kt:27-28 | the table loses that id, if any |
| RoomStudentDao.StudentDao.DeleteStudentsByCourse | app/src/main/java/com/moviles/studentcoursessystem/data/database/dao/StudentDao.kt:32-33 | the table loses the course's students |
| CourseViewModels.ToEntity | app/src/main/java/com/moviles/studentcoursessystem/viewmodel/CourseViewModel.kt:56-65 | the stored row converts back to the same course |
| CourseViewModels.ToCourse | app/src/main/java/com/moviles/studentcoursessystem/viewmodel/CourseViewModel.kt:77-86 | a shown course carries its row's id |
| CourseViewModels.EntityRoundTrip | app/src/main/java/com/moviles/studentcoursessystem/viewmodel/CourseViewModel.kt:56-86 | row → course → row is the identity |
| CourseViewModels.ToEntities | app/src/main/java/com/moviles/studentcoursessystem/viewmodel/CourseViewModel.kt:55-65 | the fetched list maps element by element to rows |
| CourseViewModels.CourseListIsStoreListing | app/src/main/java/com/moviles/studentcoursessystem/viewmodel/CourseViewModel.kt:76-86 | the shown list is the table: every stored course once, nothing else, ascending by name |
| CourseViewModels.StoredCourseIsListed | app/src/main/java/com/moviles/studentcoursessystem/viewmodel/CourseViewModel.kt:172-196 | a course the server created or updated is listed with its id after it is stored |
| CourseViewModels.DeletedCourseIsNotListed | app/src/main/java/com/moviles/studentcoursessystem/viewmodel/CourseViewModel.kt:114-115 | a course deleted from the table is not listed |
| CourseViewModels.FetchedTable | app/src/main/java/com/moviles/studentcoursessystem/viewmodel/CourseViewModel.kt:69-70 | the table after delete-all and insert keeps every row under its id |
| CourseViewModels.FetchedTableHoldsExactlyFetched | app/src/main/java/com/moviles/studentcoursessystem/viewmodel/CourseViewModel.kt:54-70 | an online fetch replaces the table with exactly the fetched ids, each holding the last fetched course |
| CourseViewModels.SingleFetchListsIt | app/src/main/java/com/moviles/studentcoursessystem/viewmodel/CourseViewModel.kt:54-86 | fetching a single course shows exactly that course, whatever was stored |
| CourseViewModels.WithoutCourseIdDropsOnlyIt | app/src/main/java/com/moviles/studentcoursessystem/viewmodel/CourseViewModel.kt:115 | the list loses exactly the entries with that id, keeps the rest in order, and is unchanged without one |
| CourseViewModels.CourseViewModel.constructor | app/src/main/java/com/moviles/studentcoursessystem/viewmodel/CourseViewModel.kt:35-41 | no origin, an empty list, not loading; bound to its DAO and to the HTTP client's origin interceptor |
| CourseViewModels.CourseViewModel.FetchCourses | app/src/main/java/com/moviles/studentcoursessystem/viewmodel/CourseViewModel.kt:49-95 | online, a returned call first records its response's origin in the tracker; success then replaces the table and shows it, with `dataSource` the classification of that response; offline shows the table, with "LOCAL"; a failed call or a missing id keeps the table, the list and `dataSource`; never left loading |
| CourseViewModels.CourseViewModel.DeleteCourse | app/src/main/java/com/moviles/studentcoursessystem/viewmodel/CourseViewModel.kt:100-127 | null id: nothing; offline or 2xx: the row and list entries with that id go; otherwise nothing |
| CourseViewModels.CourseViewModel.AddCourse | app/src/main/java/com/moviles/studentcoursessystem/viewmodel/CourseViewModel.kt:132-207 | no image file: "Error processing image file"; reply with id: stored, list reread, `onSuccess`; else `onError` with the exception's message or "Unknown error", nothing stored |
| CourseViewModels.CourseViewModel.UpdateCourse | app/src/main/java/com/moviles/studentcoursessystem/viewmodel/CourseViewModel.kt:212-285 | the same outcomes as adding, with the server's updated course |
| CourseViewModels.CourseViewModel.ClearDataSource | app/src/main/java/com/moviles/studentcoursessystem/viewmodel/CourseViewModel.kt:323-325 | the origin becomes null and nothing else changes |
| StudentViewModels.ToEntity | app/src/main/java/com/moviles/studentcoursessystem/viewmodel/StudentViewModel.kt:286-292 | the stored row converts back to the same student |
| StudentViewModels.ToStudent | app/src/main/java/com/moviles/studentcoursessystem/viewmodel/StudentViewModel.kt:278-284 | a shown student carries its row's id |
| StudentViewModels.EntityRoundTrip | app/src/main/java/com/moviles/studentcoursessystem/viewmodel/StudentViewModel.kt:278-292 | row → student → row is the identity |
| StudentViewModels.StudentListIsCourseListing | app/src/main/java/com/moviles/studentcoursessystem/viewmodel/StudentViewModel.kt:130-131 | the shown list is the course's rows: each once, none of another course, ascending by name |
| StudentViewModels.StoredStudentIsListed | app/src/main/java/com/moviles/studentcoursessystem/viewmodel/StudentViewModel.kt:216-219 | a student the server created or updated is listed under its course after it is stored |
| StudentViewModels.DeletedStudentIsNotListed | app/src/main/java/com/moviles/studentcoursessystem/viewmodel/StudentViewModel.kt:167-168 | a student deleted from the table is listed under no course |
| StudentViewModels.SliceEntities | app/src/main/java/com/moviles/studentcoursessystem/viewmodel/StudentViewModel.kt:110-118 | every fetched student is stored under the course asked for |
| StudentViewModels.RefreshedSlice | app/src/main/java/com/moviles/studentcoursessystem/viewmodel/StudentViewModel.kt:121-122 | the table after the slice replace keeps every row under its id |
| StudentViewModels.RefreshedSliceReplacesCourse | app/src/main/java/com/moviles/studentcoursessystem/viewmodel/StudentViewModel.kt:108-122 | afterwards the course holds exactly the fetched ids; other courses keep their rows except fetched ids, which move to the course |
| StudentViewModels.WithoutStudentIdDropsOnlyIt | app/src/main/java/com/moviles/studentcoursessystem/viewmodel/StudentViewModel.kt:168 | the list loses exactly the entries with that id, keeps the rest in order, and is unchanged without one |
| StudentViewModels.ReplaceById | app/src/main/java/com/moviles/studentcoursessystem/viewmodel/StudentViewModel.kt:257-259 | same length and ids; entries with the reply's id become the reply, the others stay |
| StudentViewModels.ReplaceByIdAddsNothing | app/src/main/java/com/moviles/studentcoursessystem/viewmodel/StudentViewModel.kt:257-259 | an update never adds an entry, and replacing twice equals replacing once |
| StudentViewModels.AfterFetchStudent | app/src/main/java/com/moviles/studentcoursessystem/viewmodel/StudentViewModel.kt:59-72 | the table after an online `fetchStudent` keeps every row under its id |
| StudentViewModels.CourseNameOf | app/src/main/java/com/moviles/studentcoursessystem/viewmodel/StudentViewModel.kt:84-85 | the student's course's name, or "" without a student or course |
| StudentViewModels.FetchStudentShowsReply | app/src/main/java/com/moviles/studentcoursessystem/viewmodel/StudentViewModel.kt:59-81 | a reply with the requested id becomes the shown student; another reply leaves the requested id's row as it was |
| StudentViewModels.StudentViewModel.constructor | app/src/main/java/com/moviles/studentcoursessystem/viewmodel/StudentViewModel.kt:30-43 | no origin, no selection, an empty list, not loading, no course name; bound to its DAOs and to the HTTP client's origin interceptor |
| StudentViewModels.StudentViewModel.FetchStudent | app/src/main/java/com/moviles/studentcoursessystem/viewmodel/StudentViewModel.kt:50-95 | online, the reply's response origin is recorded in the tracker, a reply with an id is upserted, and `dataSource` is that origin's classification; then the row for the requested id and its course's name are shown; offline "LOCAL"; a failed call only sets "ERROR" |
| StudentViewModels.StudentViewModel.FetchStudentsForCourse | app/src/main/java/com/moviles/studentcoursessystem/viewmodel/StudentViewModel.kt:102-141 | online, a returned call records its response's origin in the tracker; success replaces the course's slice and shows it, with `dataSource` that origin's classification; offline shows it with "LOCAL"; a failed call or missing id empties the list and leaves the table |
| StudentViewModels.StudentViewModel.DeleteStudent | app/src/main/java/com/moviles/studentcoursessystem/viewmodel/StudentViewModel.kt:148-179 | null id: nothing; offline or 2xx: the row and list entries with that id go; otherwise nothing |
| StudentViewModels.StudentViewModel.AddStudent | app/src/main/java/com/moviles/studentcoursessystem/viewmodel/StudentViewModel.kt:185-230 | offline: "No internet connection", nothing stored; reply with id: stored and appended, `onSuccess`; else `onError` |
| StudentViewModels.StudentViewModel.UpdateStudent | app/src/main/java/com/moviles/studentcoursessystem/viewmodel/StudentViewModel.kt:236-270 | offline: "No internet connection"; reply with id: stored and replaces the list entries with its id, `onSuccess`; else `onError` |
| StudentViewModels.StudentViewModel.ClearDataSource | app/src/main/java/com/moviles/studentcoursessystem/viewmodel/StudentViewModel.kt:272-274 | the origin becomes null and nothing else changes |
| LegacyStore.AssignedId | app/src/main/java/com/moviles/studentcoursessystem/models/Student.kt:22 | a null id is given an id past the table's counter; a given id is kept |
| LegacyStore.WithoutChildren | app/src/main/java/com/moviles/studentcoursessystem/models/Student.kt:10-16 | ON DELETE CASCADE: exactly the students whose course was deleted go |
| LegacyStore.PutCourse | app/src/main/java/com/moviles/studentcoursessystem/dao/CourseDao.kt:18-19 | REPLACE stores the course under its assigned id, leaves other courses, removes no course, adds no student, and keeps the database consistent |
| LegacyStore.PutCourses | app/src/main/java/com/moviles/studentcoursessystem/dao/CourseDao.kt:15-16 | a list of REPLACEs keeps the database consistent and adds no student; its content is stated in PutCoursesUpserts |
| LegacyStore.UpdateCourseRow | app/src/main/java/com/moviles/studentcoursessystem/dao/CourseDao.kt:21-22 | `@Update` rewrites the course with that id in place, touches no student, and is a no-op for a null or absent id |
| LegacyStore.DeleteCourseRow | app/src/main/java/com/moviles/studentcoursessystem/dao/CourseDao.kt:24-25 | deleting a course keeps the database consistent |
| LegacyStore.ClearCourses | app/src/main/java/com/moviles/studentcoursessystem/dao/CourseDao.kt:27-28 | clearing the courses keeps the database consistent |
| LegacyStore.PutStudent | app/src/main/java/com/moviles/studentcoursessystem/dao/StudentDao.kt:21-22 | refused with a constraint failure iff the course does not exist; otherwise stored under its assigned id, other rows kept |
| LegacyStore.PutStudents | app/src/main/java/com/moviles/studentcoursessystem/dao/StudentDao.kt:18-19 | an accepted list keeps the database consistent and the courses unchanged; its content is stated in PutStudentsUpserts |
| LegacyStore.UpdateStudentRow | app/src/main/java/com/moviles/studentcoursessystem/dao/StudentDao.kt:24-25 | no-op for a null or absent id; otherwise refused iff the new course does not exist, else rewritten in place |
| LegacyStore.DeleteStudentRow | app/src/main/java/com/moviles/studentcoursessystem/dao/StudentDao.kt:27-28 | removes exactly that id and nothing for a null id; every remaining row keeps its value; courses unchanged |
| LegacyStore.ClearStudents | app/src/main/java/com/moviles/studentcoursessystem/dao/StudentDao.kt:30-31 | the student table becomes empty; courses unchanged |
| LegacyStore.DeleteStudentsOfCourse | app/src/main/java/com/moviles/studentcoursessystem/dao/StudentDao.kt:33-34 | exactly the students of that course go, every other student keeps its value, and the courses are unchanged |
| LegacyStore.AllCourses | app/src/main/java/com/moviles/studentcoursessystem/dao/CourseDao.kt:9-10 | each stored course exactly once (every stored row listed, no id twice, nothing else), ascending by name |
| LegacyStore.CourseById | app/src/main/java/com/moviles/studentcoursessystem/dao/CourseDao.kt:12-13 | a row iff the id is non-null and stored, and then the row stored under that id |
| LegacyStore.StudentCount | app/src/main/java/com/moviles/studentcoursessystem/dao/CourseDao.kt:30-31 | zero iff no student names the course |
| LegacyStore.AllStudents | app/src/main/java/com/moviles/studentcoursessystem/dao/StudentDao.kt:9-10 | each stored student exactly once (every stored row listed, no id twice, nothing else), ascending by name |
| LegacyStore.StudentsByCourse | app/src/main/java/com/moviles/studentcoursessystem/dao/StudentDao.kt:12-13 | exactly the stored rows of that course, each once, as many as the count, ascending by name |
| LegacyStore.StudentById | app/src/main/java/com/moviles/studentcoursessystem/dao/StudentDao.kt:15-16 | a row iff the id is non-null and stored, and then the row stored under that id, whose course exists |
| LegacyStore.DeleteCourseCascades | app/src/main/java/com/moviles/studentcoursessystem/dao/CourseDao.kt:24-25 | deleting a course removes it and exactly its students (the student table becomes the cascade of that one course); other courses and students keep their values, no row is added, and the counters stay |
| LegacyStore.ClearCoursesEmptiesBoth | app/src/main/java/com/moviles/studentcoursessystem/dao/CourseDao.kt:27-28 | clearing the courses empties both tables |
| LegacyStore.ReplaceCourseDropsItsStudents | app/src/main/java/com/moviles/studentcoursessystem/dao/CourseDao.kt:18-19 | REPLACE on a stored course id drops that course's students and no others; on a new id it drops none |
| LegacyStore.RefreshCoursesEmptiesStudents | app/src/main/java/com/moviles/studentcoursessystem/data/CourseData.kt:43-44 | clear then insert of courses leaves the student table empty |
| LegacyStore.PutStudentsAllOrNothing | app/src/main/java/com/moviles/studentcoursessystem/dao/StudentDao.kt:18-19 | the list is refused iff some listed student names a missing course |
| LegacyStore.AutogeneratedStudentIdIsFresh | app/src/main/java/com/moviles/studentcoursessystem/models/Student.kt:22 | a student inserted with a null id gets an unused id |
| LegacyStore.AutogeneratedCourseIdIsFresh | app/src/main/java/com/moviles/studentcoursessystem/dao/CourseDao.kt:18-19 | a course inserted with a null id gets an unused id and takes no student with it |
| LegacyStore.PutCoursesUpserts | app/src/main/java/com/moviles/studentcoursessystem/dao/CourseDao.kt:15-16 | for courses carrying ids: the course table is the insert-or-replace by id, the students of every listed course go by the cascade, and the counters move only past them |
| LegacyStore.PutCoursesIdempotent | app/src/main/java/com/moviles/studentcoursessystem/dao/CourseDao.kt:15-16 | repeating `insertCourses` of courses carrying ids changes nothing |
| LegacyStore.RefreshedCoursesAreTheList | app/src/main/java/com/moviles/studentcoursessystem/data/CourseData.kt:42-44 | clear then insert of courses carrying ids leaves exactly the listed ids, each holding the last course listed with it, and no students |
| LegacyStore.PutStudentsUpserts | app/src/main/java/com/moviles/studentcoursessystem/dao/StudentDao.kt:18-19 | an accepted list of students carrying ids is the insert-or-replace by id on the student table; courses and their counter stay |
| LegacyStore.PutStudentsIdempotent | app/src/main/java/com/moviles/studentcoursessystem/dao/StudentDao.kt:18-19 | repeating an accepted `insertStudents` of students carrying ids changes nothing |
| LegacyStore.RefreshedStudentsAreTheList | app/src/main/java/com/moviles/studentcoursessystem/data/StudentData.kt:32-34 | an accepted clear-then-insert leaves exactly the listed ids, each holding the last student listed with it |
| LegacyStore.RefreshedCourseStudents | app/src/main/java/com/moviles/studentcoursessystem/data/StudentData.kt:46-49 | an accepted refresh of one course keeps the other courses' students unless listed, stores each listed student under its own `courseId`, and leaves under the course only listed students |
| LegacyStore.Database.constructor | app/src/main/java/com/moviles/studentcoursessystem/database/StudentCourseDatabase.kt:12-15 | both tables empty, counters at zero |
| LegacyStore.CourseDao.InsertCourses | app/src/main/java/com/moviles/studentcoursessystem/dao/CourseDao.kt:15-16 | the store becomes the list of REPLACEs; for courses carrying ids, the course table is the upsert by id and exactly the listed courses' students go |
| LegacyStore.CourseDao.InsertCourse | app/src/main/java/com/moviles/studentcoursessystem/dao/CourseDao.kt:18-19 | the store becomes the REPLACE; the row id is the assigned id |
| LegacyStore.CourseDao.UpdateCourse | app/src/main/java/com/moviles/studentcoursessystem/dao/CourseDao.kt:21-22 | the store becomes the `@Update` |
| LegacyStore.CourseDao.DeleteCourse | app/src/main/java/com/moviles/studentcoursessystem/dao/CourseDao.kt:24-25 | the store becomes the cascading delete |
| LegacyStore.CourseDao.ClearAllCourses | app/src/main/java/com/moviles/studentcoursessystem/dao/CourseDao.kt:27-28 | the store becomes the cascading clear |
| LegacyStore.StudentDao.InsertStudents | app/src/main/java/com/moviles/studentcoursessystem/dao/StudentDao.kt:18-19 | an accepted list is stored, and for students carrying ids the student table is the upsert by id; a refused one throws the constraint failure and changes nothing |
| LegacyStore.StudentDao.InsertStudent | app/src/main/java/com/moviles/studentcoursessystem/dao/StudentDao.kt:21-22 | the row id of an accepted insert, or the constraint failure with nothing changed |
| LegacyStore.StudentDao.UpdateStudent | app/src/main/java/com/moviles/studentcoursessystem/dao/StudentDao.kt:24-25 | the `@Update`, or the constraint failure with nothing changed |
| LegacyStore.StudentDao.DeleteStudent | app/src/main/java/com/moviles/studentcoursessystem/dao/StudentDao.kt:27-28 | the store becomes the delete: that id goes, the other rows keep their values |
| LegacyStore.StudentDao.ClearAllStudents | app/src/main/java/com/moviles/studentcoursessystem/dao/StudentDao.kt:30-31 | the student table becomes empty |
| LegacyStore.StudentDao.DeleteStudentsByCourse | app/src/main/java/com/moviles/studentcoursessystem/dao/StudentDao.kt:33-34 | the store becomes the delete by course: exactly that course's students go, the others keep their values |
| LegacyRepositories.Escaping | app/src/main/java/com/moviles/studentcoursessystem/data/CourseData.kt:46 | a refresh swallows exactly the `IOException`s and lets others through unchanged |
| LegacyRepositories.DeleteRefused | app/src/main/java/com/moviles/studentcoursessystem/data/CourseData.kt:113 | a refused delete fails with an `IOException` "Error deleting …: <code>" |
| LegacyRepositories.CourseData.GetCourseById | app/src/main/java/com/moviles/studentcoursessystem/data/CourseData.kt:29-31 | the stored course with that id, or null |
| LegacyRepositories.CourseData.CourseHasStudents | app/src/main/java/com/moviles/studentcoursessystem/data/CourseData.kt:34-36 | true iff some stored student names the course |
| LegacyRepositories.CourseData.RefreshCourses | app/src/main/java/com/moviles/studentcoursessystem/data/CourseData.kt:39-50 | on a reply: clear then insert, leaving no students and, for courses carrying ids, a course table that is exactly the reply's table; on a failure: nothing changes, and only non-`IOException`s escape |
| LegacyRepositories.CourseData.AddCourse | app/src/main/java/com/moviles/studentcoursessystem/data/CourseData.kt:53-88 | null URI: "Image URI is null"; file or call failure: that exception; else the reply, stored by REPLACE; failures change nothing |
| LegacyRepositories.CourseData.UpdateCourse | app/src/main/java/com/moviles/studentcoursessystem/data/CourseData.kt:91-102 | the reply, written with `@Update`, or the call's failure with nothing changed |
| LegacyRepositories.CourseData.DeleteCourse | app/src/main/java/com/moviles/studentcoursessystem/data/CourseData.kt:105-120 | 2xx: the cascading delete and `true`; other status: "Error deleting course: <code>"; failures change nothing |
| LegacyRepositories.StudentData.GetStudentById | app/src/main/java/com/moviles/studentcoursessystem/data/StudentData.kt:24-26 | the stored student with that id, or null |
| LegacyRepositories.StudentData.RefreshStudents | app/src/main/java/com/moviles/studentcoursessystem/data/StudentData.kt:29-40 | on a reply: clear, then insert, leaving a student table that is exactly the reply's table when the ids are present, or leave it cleared with the refusal escaping; on a failure: nothing changes |
| LegacyRepositories.StudentData.RefreshStudentsByCourse | app/src/main/java/com/moviles/studentcoursessystem/data/StudentData.kt:43-55 | the same, deleting only the course's students first; an accepted reply with ids is then upserted by id over the other courses' students |
| LegacyRepositories.StudentData.AddStudent | app/src/main/java/com/moviles/studentcoursessystem/data/StudentData.kt:58-69 | the reply, stored by REPLACE, or the call's or the constraint's failure with nothing changed |
| LegacyRepositories.StudentData.UpdateStudent | app/src/main/java/com/moviles/studentcoursessystem/data/StudentData.kt:72-83 | the reply, written with `@Update`, or the call's or the constraint's failure with nothing changed |
| LegacyRepositories.StudentData.DeleteStudent | app/src/main/java/com/moviles/studentcoursessystem/data/StudentData.kt:86-101 | 2xx: the delete and `true`; other status: "Error deleting student: <code>"; failures change nothing |

## Left out

- **UI, logging and coroutines.** The model leaves out the UI, `Log` calls and coroutine scheduling. Each operation runs to completion on its own, so races between overlapping calls are not modelled.
- **Connectivity and the HTTP stack.** `hasNetwork`, Retrofit and OkHttp are not modelled; their outcomes are parameters.
- **Request bodies.** The form parts and multipart image sent to the server are not modelled; only the server's reply reaches the model.
- **Image temp file.** Creating the temp file from a URI (`createTempFileFromUri`, `uriToFile`) is file I/O. Only its success or failure is a parameter.
- **Regular expressions.** `Patterns.EMAIL_ADDRESS` and the Unicode letter class `\p{L}` are library matchers, so they are parameters of the validators. Blank text, lengths and the digit pattern are modelled exactly.
- **`isLoading` during an operation.** Only its final value is stated.
- **Flow-returning repository methods.** `getAllCourses`, `getAllStudents` and `getStudentsByCourse` in `CourseData` and `StudentData` just pass a DAO query through. They are covered by the query functions `LegacyStore.AllCourses`, `AllStudents` and `StudentsByCourse`; observing a `Flow` over time is not modelled.
- **`ResponseOriginTracker`.** Its declaration is not part of this model. It is modelled as a nullable string cell that starts out null.
- **The origin interceptor outside the fetches.** The client's interceptor also runs on the add, update and delete calls, and on a failed call that got an HTTP response. The model runs it only in the three fetches, and only when the call returned. No other modelled operation reads the tracker, and an online fetch overwrites it before reading it.
- **`CourseViewModel.deleteCourse` calls `courseDao.deleteCourse`**, which the current `CourseDao` does not declare. It is modelled as a delete by id.
- **Autogeneration in the current schema.** `CourseEntity` is not modelled with an autogenerated id for 0. The rows written there carry the server's id, which is kept for a non-zero server id; an id of 0 would be replaced by a fresh one.
- **Legacy course ids.** `models/Course.kt` carries no Room annotation, so nothing in the source fixes how a null course id is assigned. The model assigns ids the way it does for students: past a per-table counter.
- **Legacy `isFromCache` and `lastSyncTimestamp`.** No modelled operation reads them, so they are not part of the records.
- **Legacy constraint message.** The foreign-key exception's message is modelled as a fixed text; SQLite's exact wording and error code are not modelled.
- PutCoursesIdempotent, PutStudentsIdempotent, RefreshedCoursesAreTheList, RefreshedStudentsAreTheList: stated only for lists whose rows all carry an id. A row with a null id is stored under a fresh autogenerated id on every insert, so repeating such an insert adds a row each time and the table is not the list's own table.
- **`StudentData.refreshStudents` calls `apiStudentService.getStudents()`**, which `ApiStudentService` does not declare. It is modelled as a call that returns the full student list.
- **`CourseData.updateCourse` passes `(course.id, course)`** to the `updateCourse` of `ApiCourseService`, whose parameters are multipart parts. Only the server's reply is modelled.
- **Two record packages.** The API services return `model.Course` and `model.Student`, while the legacy DAOs take `models.Course` and `models.Student`; `model/Student.kt` is not part of this model. The legacy repositories are modelled as if the reply were the legacy record with the same fields, as the two `Course` classes have.
- **Ties in the sorted listings.** Rows with equal names are returned in key order, but no contract states this, because SQLite leaves the order of ties unspecified.
- **Integer width.** Ids, counters and status codes are unbounded integers. Kotlin's 32-bit `Int` and 64-bit row ids are not modelled, nor is an overflowing id counter.
