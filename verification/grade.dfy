/**
 * A grade record: which student, which course, and the grade text. Only the
 * grade has a setter; the student id and the course code are fixed for the
 * life of the record, hence `const`.
 */
module Grades {
  import opened JavaLang

  class Grade {
    const studentId: JString
    const courseCode: JString
    var grade: JString

    constructor (studentId: JString, courseCode: JString, grade: JString)
      ensures GetStudentId() == studentId && GetCourseCode() == courseCode
      ensures GetGrade() == grade
    {
      this.studentId := studentId;
      this.courseCode := courseCode;
      this.grade := grade;
    }

    function GetStudentId(): JString
    {
      studentId
    }

    function GetCourseCode(): JString
    {
      courseCode
    }

    function GetGrade(): JString
      reads this
    {
      grade
    }

    method SetGrade(grade: JString)
      modifies this
      ensures GetGrade() == grade
    {
      this.grade := grade;
    }
  }
}
