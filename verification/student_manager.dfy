/**
 * The in-memory record store: students, courses, enrollments and grades,
 * each updated in place by the store's methods. Nothing is ever removed;
 * ids and codes are not required to be unique, and enrollments and grades
 * may name students or courses the store does not hold.
 */
module Management {
  import opened JavaLang
  import opened Students
  import opened Courses
  import opened Grades
  import opened Records

  class StudentManager {
    var students: seq<Student>
    var courses: seq<Course>
    var enrollments: Enrollments
    var grades: seq<Grade>

    constructor ()
      ensures GetStudents() == [] && GetCourses() == [] && enrollments == map[] && grades == []
    {
      students, courses, enrollments, grades := [], [], map[], [];
    }

    /** The stored student list itself, in insertion order. */
    function GetStudents(): seq<Student>
      reads this
    {
      students
    }

    /** The stored course list itself, in insertion order. */
    function GetCourses(): seq<Course>
      reads this
    {
      courses
    }

    method AddStudent(student: Student)
      modifies this`students
      ensures GetStudents() == old(GetStudents()) + [student]
    {
      students := students + [student];
    }

    method AddCourse(course: Course)
      modifies this`courses
      ensures GetCourses() == old(GetCourses()) + [course]
    {
      courses := courses + [course];
    }

    /** The first stored student whose id equals `id`, or null. Calling
        `equals` on a null stored id before a match is found throws. */
    method GetStudentById(id: JString) returns (r: Completion<Student?>)
      ensures var m := FirstMatch(IdsOf(students), id);
        && (r.NullPointer? <==> m.NullPointer?)
        && (r == Normal(null) <==> m == Normal(Null))
        && (m.Normal? && m.value.NonNull? ==> r.Normal? && r.value == students[m.value.value])
    {
      var i := 0;
      while i < |students|
        invariant 0 <= i <= |students|
        invariant PassesFirst(IdsOf(students), id, i)
      {
        var student := students[i];
        match Equals(student.GetId(), id)
        case NullPointer =>
          return NullPointer;
        case Normal(true) =>
          return Normal(student);
        case Normal(false) =>
          i := i + 1;
      }
      return Normal(null);
    }

    /** Appends `courseCode` to the list kept for `studentId`, creating the
        list first when the id has none. */
    method EnrollStudent(studentId: JString, courseCode: JString)
      modifies this`enrollments
      ensures enrollments == Enroll(old(enrollments), studentId, courseCode)
    {
      enrollments := enrollments[studentId := CoursesOf(enrollments, studentId) + [courseCode]];
    }

    /** The list kept for `studentId` in enrollment order, or an empty list;
        an unknown id is not added to the map. */
    method GetCoursesForStudent(studentId: JString) returns (r: seq<JString>)
      ensures r == CoursesOf(enrollments, studentId)
    {
      if studentId in enrollments {
        r := enrollments[studentId];
      } else {
        r := [];
      }
    }

    /** Always appends a new record, even when one for the same student and
        course exists already. */
    method AssignGrade(studentId: JString, courseCode: JString, grade: JString)
      modifies this`grades
      ensures |grades| == |old(grades)| + 1 && grades[..|old(grades)|] == old(grades)
      ensures var g := grades[|grades| - 1];
        fresh(g) && g.GetStudentId() == studentId && g.GetCourseCode() == courseCode
        && g.GetGrade() == grade
    {
      var g := new Grade(studentId, courseCode, grade);
      grades := grades + [g];
    }

    /** The filters of getGradesForStudent and getGradesForCourse: one
        loop over the grade list, comparing the field that `key` names. */
    method GradesWhere(key: GradeKey, want: JString) returns (r: Completion<seq<Grade>>)
      ensures r == SelectGrades(grades, key, want)
    {
      var selected: seq<Grade> := [];
      for i := 0 to |grades|
        invariant SelectGrades(grades[..i], key, want) == Normal(selected)
      {
        var g := grades[i];
        assert grades[..i + 1] == grades[..i] + [g];
        match Equals(KeyOf(g, key), want)
        case NullPointer =>
          assert KeyOf(grades[..i + 1][i], key).Null?;
          return NullPointer;
        case Normal(eq) =>
          if eq {
            selected := selected + [g];
          }
      }
      assert grades[..|grades|] == grades;
      return Normal(selected);
    }

    method GetGradesForStudent(studentId: JString) returns (r: Completion<seq<Grade>>)
      ensures r.NullPointer? <==> exists i :: 0 <= i < |grades| && grades[i].GetStudentId().Null?
      ensures r.Normal? ==> r.value == SelectGrades(grades, ByStudent, studentId).value
      ensures r.Normal? ==> forall j :: 0 <= j < |r.value| ==> r.value[j].GetStudentId() == studentId
    {
      r := GradesWhere(ByStudent, studentId);
    }

    method GetGradesForCourse(courseCode: JString) returns (r: Completion<seq<Grade>>)
      ensures r.NullPointer? <==> exists i :: 0 <= i < |grades| && grades[i].GetCourseCode().Null?
      ensures r.Normal? ==> r.value == SelectGrades(grades, ByCourse, courseCode).value
      ensures r.Normal? ==> forall j :: 0 <= j < |r.value| ==> r.value[j].GetCourseCode() == courseCode
    {
      r := GradesWhere(ByCourse, courseCode);
    }

    /** Overwrites the id and the name of the first student whose id equals
        `oldId`. Every list position holding that same object sees the
        change; every other student is untouched. No match: no change. */
    method UpdateStudent(oldId: JString, newId: JString, newName: JString) returns (r: Completion<()>)
      modifies students
      ensures var m := old(FirstMatch(IdsOf(students), oldId));
        && (r.NullPointer? <==> m.NullPointer?)
        && (m.Normal? && m.value.NonNull? ==>
              var target := students[m.value.value];
              forall i :: 0 <= i < |students| ==>
                if students[i] == target
                then students[i].id == newId && students[i].name == newName
                else students[i].id == old(students[i].id) && students[i].name == old(students[i].name))
        && (!(m.Normal? && m.value.NonNull?) ==>
              forall i :: 0 <= i < |students| ==>
                students[i].id == old(students[i].id) && students[i].name == old(students[i].name))
    {
      var found := GetStudentById(oldId);
      match found
      case NullPointer =>
        return NullPointer;
      case Normal(student) =>
        if student != null {
          student.id := newId;
          student.name := newName;
        }
        return Normal(());
    }
  }
}
