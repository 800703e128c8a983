/** The entity layer of the record keeper (OOP.py): people with a validated age
    and e-mail, students, instructors and courses, and the three append-only
    relationship operations.

    Python objects refer to each other directly; here a link is the linked
    record's id (a course id in a student's or instructor's list, an instructor
    id and student ids in a course). Objects are values: an operation that
    mutates an object in Python returns the changed record here. */
module Entities {
  import opened Wrappers
  import EmailRules

  type StudentId = string
  type InstructorId = string
  type CourseId = string

  /** The value passed as an age. Python accepts any object; what matters to
      `validate_age` is whether it is an `int`, and which one. */
  datatype AgeArg = Whole(n: int) | NotWhole

  /** The `ValueError`s the validators raise. */
  datatype ValidationError = InvalidAge(age: AgeArg) | InvalidEmail(email: string)

  /** `Person`: a name, an age that passed `validate_age` and an e-mail that
      passed `validate_email` (stored as `_email`). */
  datatype Person = Person(name: string, age: nat, email: string)

  datatype Student = Student(person: Person, studentId: StudentId, registeredCourses: seq<CourseId>)

  datatype Instructor = Instructor(person: Person, instructorId: InstructorId, assignedCourses: seq<CourseId>)

  /** `Course`; `instructor` is `None` when the course has no instructor object. */
  datatype Course = Course(courseId: CourseId, courseName: string, instructor: Option<InstructorId>,
                           enrolledStudents: seq<StudentId>)

  // ---------------------------------------------------------------------------
  // Validation

  /** `Person.validate_age`: an integer of at least zero is returned unchanged;
      a negative integer or a value that is not an integer raises. */
  function ValidateAge(age: AgeArg): (r: Result<nat, ValidationError>)
    ensures r.Ok? <==> age.Whole? && age.n >= 0
    ensures r.Ok? ==> r.value == age.n
    ensures r.Err? ==> r.error == InvalidAge(age)
  {
    if age.Whole? && age.n >= 0 then Ok(age.n) else Err(InvalidAge(age))
  }

  /** `Person.validate_email`: the string is returned unchanged exactly when
      the pattern `^[\w\.-]+@[\w\.-]+\.\w+$` matches it, and raises otherwise.
      The check runs the hand-built recogniser; the contract speaks of the
      pattern itself. */
  function ValidateEmail(email: string): (r: Result<string, ValidationError>)
    ensures r.Ok? <==> EmailRules.AddressPattern(email)
    ensures r.Ok? ==> r.value == email
    ensures r.Err? ==> r.error == InvalidEmail(email)
  {
    EmailRules.AddressAcceptsIffPattern(email);
    if EmailRules.AddressAccepts(email) then Ok(email) else Err(InvalidEmail(email))
  }

  /** `Person.__init__`: the age is validated first, then the e-mail; the first
      failure is raised and no person exists. The name is stored as given. */
  function NewPerson(name: string, age: AgeArg, email: string): (r: Result<Person, ValidationError>)
    ensures r.Ok? <==> age.Whole? && age.n >= 0 && EmailRules.AddressPattern(email)
    ensures r.Ok? ==> r.value.name == name && r.value.age == age.n && r.value.email == email
    ensures !(age.Whole? && age.n >= 0) ==> r == Err(InvalidAge(age))
    ensures age.Whole? && age.n >= 0 && !EmailRules.AddressPattern(email) ==> r == Err(InvalidEmail(email))
  {
    match ValidateAge(age)
    case Err(e) => Err(e)
    case Ok(a) =>
      match ValidateEmail(email)
      case Err(e) => Err(e)
      case Ok(m) => Ok(Person(name, a, m))
  }

  /** The list argument of a constructor: `None` stands for an empty list. */
  function ListOrEmpty<T>(xs: Option<seq<T>>): seq<T> {
    match xs
    case None => []
    case Some(l) => l
  }

  /** `Student.__init__`: a student exists exactly when the person part
      validates, and then carries the id and the given list, or `[]`. */
  function NewStudent(name: string, age: AgeArg, email: string, studentId: StudentId,
                      registeredCourses: Option<seq<CourseId>>): (r: Result<Student, ValidationError>)
    ensures r.Ok? <==> NewPerson(name, age, email).Ok?
    ensures r.Err? ==> r.error == NewPerson(name, age, email).error
    ensures r.Ok? ==> r.value.person == NewPerson(name, age, email).value && r.value.studentId == studentId
    ensures r.Ok? && registeredCourses.None? ==> r.value.registeredCourses == []
    ensures r.Ok? && registeredCourses.Some? ==> r.value.registeredCourses == registeredCourses.value
  {
    match NewPerson(name, age, email)
    case Err(e) => Err(e)
    case Ok(p) => Ok(Student(p, studentId, ListOrEmpty(registeredCourses)))
  }

  /** `Instructor.__init__`, as for students. */
  function NewInstructor(name: string, age: AgeArg, email: string, instructorId: InstructorId,
                         assignedCourses: Option<seq<CourseId>>): (r: Result<Instructor, ValidationError>)
    ensures r.Ok? <==> NewPerson(name, age, email).Ok?
    ensures r.Err? ==> r.error == NewPerson(name, age, email).error
    ensures r.Ok? ==> r.value.person == NewPerson(name, age, email).value && r.value.instructorId == instructorId
    ensures r.Ok? && assignedCourses.None? ==> r.value.assignedCourses == []
    ensures r.Ok? && assignedCourses.Some? ==> r.value.assignedCourses == assignedCourses.value
  {
    match NewPerson(name, age, email)
    case Err(e) => Err(e)
    case Ok(p) => Ok(Instructor(p, instructorId, ListOrEmpty(assignedCourses)))
  }

  /** `Course.__init__`: nothing is validated; a missing student list becomes `[]`. */
  function NewCourse(courseId: CourseId, courseName: string, instructor: Option<InstructorId>,
                     enrolledStudents: Option<seq<StudentId>>): (c: Course)
    ensures c.courseId == courseId && c.courseName == courseName && c.instructor == instructor
    ensures enrolledStudents.None? ==> c.enrolledStudents == []
    ensures enrolledStudents.Some? ==> c.enrolledStudents == enrolledStudents.value
  {
    Course(courseId, courseName, instructor, ListOrEmpty(enrolledStudents))
  }

  // ---------------------------------------------------------------------------
  // Relationship operations

  /** `Instructor.assign_course`: appends, without checking for a duplicate. */
  function AssignCourse(i: Instructor, course: CourseId): (r: Instructor)
    ensures r.person == i.person && r.instructorId == i.instructorId
    ensures |r.assignedCourses| == |i.assignedCourses| + 1
    ensures r.assignedCourses[..|i.assignedCourses|] == i.assignedCourses
    ensures r.assignedCourses[|i.assignedCourses|] == course
    ensures multiset(r.assignedCourses)[course] == multiset(i.assignedCourses)[course] + 1
  {
    i.(assignedCourses := i.assignedCourses + [course])
  }

  /** `Course.add_student`: appends, without checking for a duplicate. */
  function AddStudent(c: Course, student: StudentId): (r: Course)
    ensures r.courseId == c.courseId && r.courseName == c.courseName && r.instructor == c.instructor
    ensures |r.enrolledStudents| == |c.enrolledStudents| + 1
    ensures r.enrolledStudents[..|c.enrolledStudents|] == c.enrolledStudents
    ensures r.enrolledStudents[|c.enrolledStudents|] == student
    ensures multiset(r.enrolledStudents)[student] == multiset(c.enrolledStudents)[student] + 1
  {
    c.(enrolledStudents := c.enrolledStudents + [student])
  }

  /** `Student.register_course`: appends, without checking for a duplicate. */
  function RegisterCourse(s: Student, course: CourseId): (r: Student)
    ensures r.person == s.person && r.studentId == s.studentId
    ensures |r.registeredCourses| == |s.registeredCourses| + 1
    ensures r.registeredCourses[..|s.registeredCourses|] == s.registeredCourses
    ensures r.registeredCourses[|s.registeredCourses|] == course
    ensures multiset(r.registeredCourses)[course] == multiset(s.registeredCourses)[course] + 1
  {
    s.(registeredCourses := s.registeredCourses + [course])
  }

  /** The constructor's e-mail rule on the examples: "a@b.com" passes, "a@b"
      and "a.b.com" do not, and Python's `$` lets "a@b.com" with one final
      line feed through unchanged. */
  lemma EmailExamples()
    ensures ValidateEmail("a@b.com") == Ok("a@b.com")
    ensures ValidateEmail("a@b").Err?
    ensures ValidateEmail("a.b.com").Err?
    ensures ValidateEmail("a@b.com\n") == Ok("a@b.com\n")
  {
    AddressExampleRuns();
    DottedExampleRuns();
    assert "a@b.com\n"[..7] == "a@b.com";
    assert EmailRules.AddressAccepts("a@b.com");
    assert !EmailRules.AddressAccepts("a@b");
    assert !EmailRules.AddressAccepts("a.b.com");
    assert EmailRules.AddressAccepts("a@b.com\n");
  }

  /** The recogniser on the prefixes of "a@b.com" and on its line-feed variant. */
  lemma AddressExampleRuns()
    ensures EmailRules.Run(EmailRules.AddressStep, EmailRules.Start, "a@b") == EmailRules.Domain
    ensures EmailRules.Run(EmailRules.AddressStep, EmailRules.Start, "a@b.com") == EmailRules.Label
    ensures EmailRules.Run(EmailRules.AddressStep, EmailRules.Start, "a@b.com\n") == EmailRules.Dead
  {
    var step := EmailRules.AddressStep;
    var start := EmailRules.Start;
    assert EmailRules.Run(step, start, "a") == EmailRules.Local;
    assert "a@"[..1] == "a";
    assert EmailRules.Run(step, start, "a@") == EmailRules.At;
    assert "a@b"[..2] == "a@";
    assert EmailRules.Run(step, start, "a@b") == EmailRules.Domain;
    assert "a@b."[..3] == "a@b";
    assert EmailRules.Run(step, start, "a@b.") == EmailRules.Dot;
    assert "a@b.c"[..4] == "a@b.";
    assert EmailRules.Run(step, start, "a@b.c") == EmailRules.Label;
    assert "a@b.co"[..5] == "a@b.c";
    assert EmailRules.Run(step, start, "a@b.co") == EmailRules.Label;
    assert "a@b.com"[..6] == "a@b.co";
    assert EmailRules.Run(step, start, "a@b.com") == EmailRules.Label;
    assert "a@b.com\n"[..7] == "a@b.com";
  }

  /** The recogniser on the prefixes of "a.b.com", which has no at-sign. */
  lemma DottedExampleRuns()
    ensures EmailRules.Run(EmailRules.AddressStep, EmailRules.Start, "a.b.com") == EmailRules.Local
  {
    var step := EmailRules.AddressStep;
    var start := EmailRules.Start;
    assert EmailRules.Run(step, start, "a") == EmailRules.Local;
    assert "a."[..1] == "a";
    assert EmailRules.Run(step, start, "a.") == EmailRules.Local;
    assert "a.b"[..2] == "a.";
    assert EmailRules.Run(step, start, "a.b") == EmailRules.Local;
    assert "a.b."[..3] == "a.b";
    assert EmailRules.Run(step, start, "a.b.") == EmailRules.Local;
    assert "a.b.c"[..4] == "a.b.";
    assert EmailRules.Run(step, start, "a.b.c") == EmailRules.Local;
    assert "a.b.co"[..5] == "a.b.c";
    assert EmailRules.Run(step, start, "a.b.co") == EmailRules.Local;
    assert "a.b.com"[..6] == "a.b.co";
  }
}
