# Student record store, modelled in Dafny

This project models the in-memory record store of a small student-management
desktop application: the `StudentManager` class, which keeps a list of
students, a list of courses, a map from student id to enrolled course codes and
a list of grade records, and the three record classes it holds (`Student`,
`Course`, `Grade`). The Swing windows that call the store are not modelled.

Layout, one module per source file plus two shared ones:

- `java_lang.dfy` (`JavaLang`): Java's nullable references (`Nullable`,
  `JString` for a `String` that may be null), `String.equals`, and
  `Completion`, which says whether a call returned normally or threw
  NullPointerException. The store never validates its input, so calling
  `equals` on a null id or code is a real outcome of the code and is modelled
  as such rather than excluded by a precondition.
- `labels.dfy` (`Labels`): the "name (key)" / "(Select)" text shared by
  `Student.toString` and `Course.toString`.
- `student.dfy` (`Students`): `Student` as a class with mutable `id` and
  `name`.
- `course.dfy` (`Courses`): `Course` as an immutable datatype; its
  constructor and the getters `getCode` / `getName` are the datatype's
  constructor and destructors.
- `grade.dfy` (`Grades`): `Grade` as a class whose `studentId` and
  `courseCode` are `const` (they have no setter) and whose `grade` is
  mutable through `SetGrade`.
- `records.dfy` (`Records`): value-level specifications of the store's
  queries and updates (`FirstMatch`, `SelectGrades`, `CoursesOf`, `Enroll`)
  and the lemmas about them.
- `student_manager.dfy` (`Management`): `StudentManager` as a class with
  `seq` and `map` fields. Each mutating method states the new value of the
  one field it may modify; the read-only methods run the source's loops and
  are proved equal to the specification functions.

`getStudents` and `getCourses` are the functions `GetStudents` and
`GetCourses`, which give the current list value; `AddStudent` and `AddCourse`
state their effect through them.

Points where the model had to choose:

- `updateStudent` (src/main/java/StudentManager.java:67-73) calls
  `setId` and `setName`, which `Student` (src/main/java/Student.java:4-51)
  does not declare. The model gives `Student` mutable `id` and `name` fields
  and lets `UpdateStudent` overwrite them, which is what the call sites mean.
- `updateStudent` changes the stored object, not a list slot. If the same
  `Student` object was added twice, every position holding it shows the new id
  and name; `UpdateStudent`'s contract says exactly this.
- `assignGrade` (src/main/java/StudentManager.java:43-45) always appends a new
  record, even for a student and course that already have one, and the store
  has no `getGrade`, `getEnrolledCourses` or `getUnEnrolledStudents`.
  `RegradeKeepsBothRecords` proves that grading a pair twice keeps both
  records.
- Enrollments are a map from student id to a list of course codes, separate
  from the grade list; enrolling does not create a grade record.

## Model

| member | source | states |
|---|---|---|
| `JavaLang.Equals` | src/main/java/StudentManager.java:22 | `s.equals(x)` throws exactly when `s` is null; otherwise it is true exactly when `x` is a non-null string with the same characters |
| `Labels.Label` | src/main/java/Student.java:44-50 | the text is "(Select)" if and only if the key or the name is null; otherwise it has length \|name\|+\|key\|+3 and is the name, " (", the key and ")" in that order |
| `Labels.LabelOfRecordIsNotPlaceholder` | src/main/java/Course.java:45-48 | a label of two non-null fields contains " (", which "(Select)" does not, so a real record never displays as the placeholder |
| `Students.Student.constructor` | src/main/java/Student.java:14-36 | `getId` and `getName` return the values passed to the constructor |
| `Students.Student.ToString` | src/main/java/Student.java:44-50 | "(Select)" exactly when id or name is null; otherwise it starts with the name and has length \|name\|+\|id\|+3 (`Labels.Label` gives the full layout) |
| `Courses.Course.ToString` | src/main/java/Course.java:43-49 | "(Select)" exactly when code or name is null; otherwise it starts with the name and has length \|name\|+\|code\|+3 (`Labels.Label` gives the full layout) |
| `Grades.Grade.constructor` | src/main/java/Grade.java:16-47 | the three getters return the student id, course code and grade given to the constructor |
| `Grades.Grade.SetGrade` | src/main/java/Grade.java:54-56 | `getGrade` returns the new grade afterwards; student id and course code are `const`, so they cannot change |
| `Records.FirstMatch` | src/main/java/StudentManager.java:20-25 | the lookup returns position k exactly when id k equals the wanted id and every earlier id is non-null and different; "not found" exactly when every id is non-null and different; it throws exactly when a null id is reached before a match |
| `Records.LookupAfterOverwrite` | src/main/java/StudentManager.java:67-73 | after the first match for the old id gets a non-null new id, looking up the new id succeeds, at that position or earlier, and cannot throw |
| `Records.SelectGrades` | src/main/java/StudentManager.java:47-65 | a grade filter throws exactly when some record's compared field is null; otherwise every record it returns has the wanted field value |
| `Records.SelectGradesIsSubsequence` | src/main/java/StudentManager.java:47-55 | the records a filter returns appear in the grade list in the same order |
| `Records.SelectGradesKeepsMatches` | src/main/java/StudentManager.java:57-65 | a filter returns every occurrence of every matching record and no other record |
| `Records.RegradeKeepsBothRecords` | src/main/java/StudentManager.java:43-45 | grading the same student and course twice leaves both records in the filter's result, in order: it is not an upsert |
| `Records.Enroll` | src/main/java/StudentManager.java:35-37 | the code is appended to the student's list, which is created if absent; the key set gains only that id; every other id's list is unchanged; duplicates are kept |
| `Records.EnrollAllKeepsRequestOrder` | src/main/java/StudentManager.java:35-41 | after any sequence of enrollments, each student's list is its old list followed by exactly the codes requested for it, in request order |
| `Management.StudentManager.constructor` | src/main/java/StudentManager.java:6-10 | a new store has empty lists and an empty enrollment map |
| `Management.StudentManager.GetStudents` | src/main/java/StudentManager.java:16-18 | the current student list, in insertion order; the constructor and `AddStudent` state the list's content through it |
| `Management.StudentManager.GetCourses` | src/main/java/StudentManager.java:31-33 | the current course list, in insertion order; the constructor and `AddCourse` state the list's content through it |
| `Management.StudentManager.AddStudent` | src/main/java/StudentManager.java:12-14 | the student list becomes the old list with the argument appended; only the student list may change |
| `Management.StudentManager.AddCourse` | src/main/java/StudentManager.java:27-29 | the course list becomes the old list with the argument appended; only the course list may change |
| `Management.StudentManager.GetStudentById` | src/main/java/StudentManager.java:20-25 | the loop returns the student at `FirstMatch`'s position, null when it finds none, and throws when it throws; nothing is modified |
| `Management.StudentManager.EnrollStudent` | src/main/java/StudentManager.java:35-37 | the enrollment map becomes `Enroll` of the old map; only the map may change |
| `Management.StudentManager.GetCoursesForStudent` | src/main/java/StudentManager.java:39-41 | returns the stored list for the id, or an empty list for an unknown id, without changing the map |
| `Management.StudentManager.AssignGrade` | src/main/java/StudentManager.java:43-45 | the grade list grows by exactly one fresh record holding the arguments; earlier records and every other field are unchanged |
| `Management.StudentManager.GradesWhere` | src/main/java/StudentManager.java:47-65 | the loop over the grade list computes `SelectGrades`, throwing at the first null field |
| `Management.StudentManager.GetGradesForStudent` | src/main/java/StudentManager.java:47-55 | throws exactly when some grade has a null student id; otherwise returns the order-preserving filter of grades whose student id equals the argument; nothing is modified |
| `Management.StudentManager.GetGradesForCourse` | src/main/java/StudentManager.java:57-65 | throws exactly when some grade has a null course code; otherwise returns the order-preserving filter of grades whose course code equals the argument; nothing is modified |
| `Management.StudentManager.UpdateStudent` | src/main/java/StudentManager.java:67-73 | if the lookup of the old id finds a student, that object gets the new id and name and every other student keeps its id and name; if it finds none, nothing changes; it throws exactly when the lookup throws; the list itself is unchanged |

## Left out

- src/main/java/StudentManagementSystem.java is not part of this model: it
  builds the Swing windows, tables, drop-downs and message dialogs. Its
  checks that text fields are non-empty before calling the store are not
  needed by any method of the model.
- `GetStudents`, `GetCourses` and `GetCoursesForStudent` return the current
  list value. The Java methods return the store's own `ArrayList` (for
  `getCoursesForStudent`, the one held in the enrollment map for a known id),
  through which a caller's `add` would change the store; that aliasing is not
  modelled.
- Course identity: `Course` is a value, so the identity of course
  objects is not modelled; nothing in the store compares courses by identity.
- Null records: Java lets `addStudent(null)` or `addCourse(null)` store a null
  reference, which a later `getStudentById` would dereference. The model's lists
  hold only non-null records; the application always passes freshly built
  objects.
- `HashMap` hashing and iteration order are not modelled; the enrollment map
  is a Dafny `map`, which also allows a null key, as `HashMap` does.
- The stream pipeline of `getStudentById` is modelled as the left-to-right
  scan it performs; laziness is kept only in that the scan stops at the first
  match.
- Uniqueness of student ids or course codes, and whether enrolled or graded
  students and courses exist, are not enforced by the code and are not claimed.
- `getGradesForStudent` and `getGradesForCourse` share one loop,
  `GradesWhere`, parameterised by the compared field; the two Java methods
  hold the same loop twice.
