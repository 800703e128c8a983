/** The window's file formats without the files: the records `saveData`
    flattens the lists into, the links `loadData` rebuilds from parsed
    records, and the rows `export_to_csv` writes. */
module Persistence {
  import opened Wrappers
  import opened Text
  import opened Seqs
  import opened Entities
  import opened Session

  // ---------------------------------------------------------------------------
  // Save (saveData)

  /** A saved student: exactly `student_id`, `name`, `age`, `email` and
      `registered_courses`. */
  datatype SavedStudent = SavedStudent(studentId: StudentId, name: string, age: nat, email: string,
                                       registeredCourses: seq<CourseId>)

  /** A saved instructor: only `instructor_id`, `name` and `assigned_courses`. */
  datatype SavedInstructor = SavedInstructor(instructorId: InstructorId, name: string, assignedCourses: seq<CourseId>)

  /** A saved course; `instructorId` is `None` when the entry has no instructor. */
  datatype SavedCourse = SavedCourse(courseId: CourseId, courseName: string, instructorId: Option<InstructorId>,
                                     enrolledStudents: seq<StudentId>)

  datatype SavedData = SavedData(students: seq<SavedStudent>, instructors: seq<SavedInstructor>, courses: seq<SavedCourse>)

  function SaveStudent(s: Student): SavedStudent {
    SavedStudent(s.studentId, s.person.name, s.person.age, s.person.email, s.registeredCourses)
  }

  function SaveInstructor(i: Instructor): SavedInstructor {
    SavedInstructor(i.instructorId, i.person.name, i.assignedCourses)
  }

  /** A course entry as saved. A dictionary entry has no `instructor` and no
      `enrolled_students` key, so it is saved with no instructor and no
      students. */
  function SaveCourse(e: CourseEntry): (r: SavedCourse)
    ensures r.courseId == e.Id() && r.courseName == e.Name()
    ensures !e.LoadedCourse? ==> r.instructorId.None? && r.enrolledStudents == []
    ensures e.LoadedCourse? ==> r.instructorId == e.course.instructor && r.enrolledStudents == e.course.enrolledStudents
  {
    match e
    case LoadedCourse(c) => SavedCourse(c.courseId, c.courseName, c.instructor, c.enrolledStudents)
    case _ => SavedCourse(e.Id(), e.Name(), None, [])
  }

  /** A student rebuilt from its saved record. */
  function RestoreStudent(r: SavedStudent): Student {
    Student(Person(r.name, r.age, r.email), r.studentId, r.registeredCourses)
  }

  /** `saveData`: one record per student, instructor and course entry, in
      list order. A saved student holds everything the student holds; a
      saved instructor keeps its id, name and courses. */
  function Save(repo: Repository): (d: SavedData)
    ensures |d.students| == |repo.students|
    ensures forall k | 0 <= k < |repo.students| :: RestoreStudent(d.students[k]) == repo.students[k]
    ensures |d.instructors| == |repo.instructors|
    ensures forall k | 0 <= k < |repo.instructors| ::
      d.instructors[k].instructorId == repo.instructors[k].instructorId &&
      d.instructors[k].name == repo.instructors[k].person.name &&
      d.instructors[k].assignedCourses == repo.instructors[k].assignedCourses
    ensures |d.courses| == |repo.courses|
    ensures forall k | 0 <= k < |repo.courses| ::
      d.courses[k].courseId == repo.courses[k].Id() && d.courses[k].courseName == repo.courses[k].Name()
    ensures forall k | 0 <= k < |repo.courses| :: d.courses[k] == SaveCourse(repo.courses[k])
    ensures forall k | 0 <= k < |repo.courses| && !repo.courses[k].LoadedCourse? ::
      d.courses[k].instructorId.None? && d.courses[k].enrolledStudents == []
  {
    SavedData(
      seq(|repo.students|, k requires 0 <= k < |repo.students| => SaveStudent(repo.students[k])),
      seq(|repo.instructors|, k requires 0 <= k < |repo.instructors| => SaveInstructor(repo.instructors[k])),
      seq(|repo.courses|, k requires 0 <= k < |repo.courses| => SaveCourse(repo.courses[k])))
  }

  /** The saved student records give back exactly the student list. */
  lemma SavedStudentsRestore(repo: Repository)
    ensures Restored(Save(repo).students) == repo.students
  {
    var d := Save(repo);
    assert |Restored(d.students)| == |repo.students|;
    forall k | 0 <= k < |repo.students|
      ensures Restored(d.students)[k] == repo.students[k]
    {
    }
  }

  function Restored(records: seq<SavedStudent>): (r: seq<Student>)
    ensures |r| == |records|
  {
    seq(|records|, k requires 0 <= k < |records| => RestoreStudent(records[k]))
  }

  /** An instructor's age and e-mail are not saved: two repositories whose
      instructors differ only there save to the same data. */
  lemma SaveForgetsInstructorContact(repo: Repository, k: nat, age: nat, email: string)
    requires k < |repo.instructors|
    ensures var p := repo.instructors[k].person;
      Save(repo.(instructors := repo.instructors[k := repo.instructors[k].(person := p.(age := age, email := email))])) == Save(repo)
  {
    var p := repo.instructors[k].person;
    var other := repo.(instructors := repo.instructors[k := repo.instructors[k].(person := p.(age := age, email := email))]);
    assert Save(other).instructors == Save(repo).instructors;
  }

  // ---------------------------------------------------------------------------
  // Load (loadData)

  /** A parsed instructor or student record: its id and the person built
      from its name, age and e-mail. */
  datatype PersonEntry = PersonEntry(id: string, person: Person)

  /** A parsed course record. `enrolledStudents` is the `enrolled_students`
      value, absent or a list; `enrolledStudentIds` is `enrolled_students_ids`
      (absent reads as empty). */
  datatype CourseDoc = CourseDoc(courseId: CourseId, courseName: string, instructorId: Option<string>,
                                 enrolledStudents: Option<seq<StudentId>>, enrolledStudentIds: seq<string>)

  datatype Document = Document(instructors: seq<PersonEntry>, students: seq<PersonEntry>, courses: seq<CourseDoc>)

  function EntryIds(es: seq<PersonEntry>): (ids: seq<string>)
    ensures |ids| == |es| && forall k | 0 <= k < |es| :: ids[k] == es[k].id
  {
    seq(|es|, k requires 0 <= k < |es| => es[k].id)
  }

  /** How many of `ids` resolve, as the first match in `known`, to position `k`. */
  function Count(ids: seq<string>, known: seq<string>, k: nat): nat
    decreases |ids|
  {
    if ids == [] then 0
    else (if Find(known, ids[0]) == Some(k) then 1 else 0) + Count(ids[1..], known, k)
  }

  /** The course ids the `k`-th student receives from the course records:
      per course in order, its id once for each enrolment id resolving to
      that student. */
  function Registrations(cs: seq<CourseDoc>, known: seq<string>, k: nat): seq<CourseId>
    decreases |cs|
  {
    if cs == [] then []
    else Repeat(cs[0].courseId, Count(cs[0].enrolledStudentIds, known, k)) + Registrations(cs[1..], known, k)
  }

  /** The instructor the course record resolves to, as the first match by id. */
  function InstructorOf(c: CourseDoc, known: seq<string>): Option<nat> {
    match c.instructorId
    case None => None
    case Some(id) => Find(known, id)
  }

  /** The course ids the `k`-th instructor receives: those of the courses, in
      order, whose instructor id resolves to it. */
  function Assignments(cs: seq<CourseDoc>, known: seq<string>, k: nat): seq<CourseId>
    decreases |cs|
  {
    if cs == [] then []
    else (if InstructorOf(cs[0], known) == Some(k) then [cs[0].courseId] else []) + Assignments(cs[1..], known, k)
  }

  /** The course object built from a record: its instructor when the id is
      known, and the record's `enrolled_students` followed by the enrolment
      ids that name a student, in order, unknown ones skipped. */
  function LoadedFrom(c: CourseDoc, students: seq<string>, instructors: seq<string>): Course {
    Course(c.courseId, c.courseName,
           if InstructorOf(c, instructors).Some? then c.instructorId else None,
           ListOrEmpty(c.enrolledStudents) + Filter(c.enrolledStudentIds, Named(students)))
  }

  /** The test "names one of `known`", as a function value. */
  function Named(known: seq<string>): string -> bool {
    (id: string) => id in known
  }

  datatype Enrolled = Enrolled(course: Course, students: seq<Student>)

  /** The loop over `enrolled_students_ids`: each id naming a student links
      the first such student and the course both ways. */
  function EnrollIds(course: Course, students: seq<Student>, ids: seq<string>): Enrolled
    decreases |ids|
  {
    if ids == [] then Enrolled(course, students)
    else
      match FindStudent(students, ids[0])
      case None => EnrollIds(course, students, ids[1..])
      case Some(j) =>
        EnrollIds(AddStudent(course, students[j].studentId),
                  students[j := RegisterCourse(students[j], course.courseId)], ids[1..])
  }

  /** One step of a filter: the head is kept exactly when it passes. */
  lemma FilterStep(s: seq<string>, p: string -> bool)
    requires s != []
    ensures Filter(s, p) == if p(s[0]) then [s[0]] + Filter(s[1..], p) else Filter(s[1..], p)
  {
  }

  /** The loop keeps the students' ids. */
  lemma {:induction false} EnrollIdsKeepsIds(course: Course, students: seq<Student>, ids: seq<string>)
    ensures |EnrollIds(course, students, ids).students| == |students|
    ensures StudentIds(EnrollIds(course, students, ids).students) == StudentIds(students)
    decreases |ids|
  {
    if ids != [] {
      match FindStudent(students, ids[0])
      case None =>
        EnrollIdsKeepsIds(course, students, ids[1..]);
      case Some(j) =>
        var s1 := students[j := RegisterCourse(students[j], course.courseId)];
        assert StudentIds(s1) == StudentIds(students);
        EnrollIdsKeepsIds(AddStudent(course, students[j].studentId), s1, ids[1..]);
    }
  }

  /** The loop appends the ids that name a student to the course, in order. */
  lemma {:induction false} EnrollIdsCourse(course: Course, students: seq<Student>, ids: seq<string>)
    ensures EnrollIds(course, students, ids).course ==
      course.(enrolledStudents := course.enrolledStudents + Filter(ids, Named(StudentIds(students))))
    decreases |ids|
  {
    if ids == [] {
      assert course.enrolledStudents + [] == course.enrolledStudents;
    } else if FindStudent(students, ids[0]).None? {
      EnrollSkips(course, students, ids);
    } else {
      EnrollTakes(course, students, ids);
    }
  }

  /** An id naming no student is skipped. */
  lemma {:induction false} EnrollSkips(course: Course, students: seq<Student>, ids: seq<string>)
    requires ids != [] && FindStudent(students, ids[0]).None?
    ensures EnrollIds(course, students, ids).course ==
      course.(enrolledStudents := course.enrolledStudents + Filter(ids, Named(StudentIds(students))))
    decreases |ids|, 0
  {
    var S := StudentIds(students);
    assert EnrollIds(course, students, ids) == EnrollIds(course, students, ids[1..]);
    EnrollIdsCourse(course, students, ids[1..]);
    assert ids[0] !in S;
    FilterStep(ids, Named(S));
  }

  /** An id naming a student is appended to the course. */
  lemma {:induction false} EnrollTakes(course: Course, students: seq<Student>, ids: seq<string>)
    requires ids != [] && FindStudent(students, ids[0]).Some?
    ensures EnrollIds(course, students, ids).course ==
      course.(enrolledStudents := course.enrolledStudents + Filter(ids, Named(StudentIds(students))))
    decreases |ids|, 0
  {
    var S := StudentIds(students);
    var rest := ids[1..];
    var j := FindStudent(students, ids[0]).value;
    var c1 := AddStudent(course, students[j].studentId);
    var s1 := students[j := RegisterCourse(students[j], course.courseId)];
    assert EnrollIds(course, students, ids) == EnrollIds(c1, s1, rest);
    assert StudentIds(s1) == S;
    EnrollIdsCourse(c1, s1, rest);
    var tail := Filter(rest, Named(S));
    assert EnrollIds(course, students, ids).course == c1.(enrolledStudents := c1.enrolledStudents + tail);
    assert Filter(ids, Named(S)) == [ids[0]] + tail by {
      assert ids[0] in S;
      FilterStep(ids, Named(S));
    }
    AppendAssoc(course.enrolledStudents, [ids[0]], tail);
  }

  lemma AppendAssoc<T>(a: seq<T>, b: seq<T>, c: seq<T>)
    ensures a + b + c == a + (b + c)
  {
  }

  /** The loop gives every student the course once per id naming it first. */
  lemma {:induction false} EnrollIdsStudents(course: Course, students: seq<Student>, ids: seq<string>)
    ensures var r := EnrollIds(course, students, ids);
      && |r.students| == |students|
      && forall k | 0 <= k < |students| ::
           r.students[k] == students[k].(registeredCourses :=
             students[k].registeredCourses + Repeat(course.courseId, Count(ids, StudentIds(students), k)))
    decreases |ids|
  {
    var S := StudentIds(students);
    var r := EnrollIds(course, students, ids);
    EnrollIdsKeepsIds(course, students, ids);
    if ids == [] {
      forall k | 0 <= k < |students|
        ensures students[k].registeredCourses + [] == students[k].registeredCourses
      {
      }
    } else {
      var rest := ids[1..];
      match FindStudent(students, ids[0])
      case None =>
        assert r == EnrollIds(course, students, rest);
        EnrollIdsStudents(course, students, rest);
        assert forall k | 0 <= k < |students| :: Count(ids, S, k) == Count(rest, S, k);
      case Some(j) =>
        var c1 := AddStudent(course, students[j].studentId);
        var s1 := students[j := RegisterCourse(students[j], course.courseId)];
        assert r == EnrollIds(c1, s1, rest);
        assert StudentIds(s1) == S;
        EnrollIdsStudents(c1, s1, rest);
        forall k | 0 <= k < |students|
          ensures r.students[k] == students[k].(registeredCourses :=
            students[k].registeredCourses + Repeat(course.courseId, Count(ids, S, k)))
        {
          var n := Count(rest, S, k);
          var b: seq<CourseId> := if k == j then [course.courseId] else [];
          assert Count(ids, S, k) == |b| + n;
          assert s1[k] == students[k].(registeredCourses := students[k].registeredCourses + b);
          assert r.students[k] == s1[k].(registeredCourses := s1[k].registeredCourses + Repeat(course.courseId, n));
          ComposeRegistrations(students[k], s1[k], r.students[k], b, Repeat(course.courseId, n));
          RepeatCons(course.courseId, n);
          assert b + Repeat(course.courseId, n) == Repeat(course.courseId, |b| + n);
        }
    }
  }

  lemma RepeatCons<T>(x: T, n: nat)
    ensures [x] + Repeat(x, n) == Repeat(x, n + 1)
    ensures [] + Repeat(x, n) == Repeat(x, n)
  {
  }

  /** One iteration of the loop over course records. */
  function LoadCourse(repo: Repository, c: CourseDoc): Repository {
    var instructor := match c.instructorId
      case None => None
      case Some(id) => FindInstructor(repo.instructors, id);
    var course := NewCourse(c.courseId, c.courseName,
                            if instructor.Some? then Some(repo.instructors[instructor.value].instructorId) else None,
                            c.enrolledStudents);
    var e := EnrollIds(course, repo.students, c.enrolledStudentIds);
    var instructors := match instructor
      case None => repo.instructors
      case Some(k) => repo.instructors[k := AssignCourse(repo.instructors[k], c.courseId)];
    Repository(e.students, instructors, repo.courses + [LoadedCourse(e.course)])
  }

  function LoadCourses(repo: Repository, cs: seq<CourseDoc>): Repository
    decreases |cs|
  {
    if cs == [] then repo else LoadCourses(LoadCourse(repo, cs[0]), cs[1..])
  }

  /** The loop over course records gives every student the registrations
      the records resolve to it. */
  lemma {:induction false} LoadCoursesStudents(repo: Repository, cs: seq<CourseDoc>)
    ensures var r := LoadCourses(repo, cs);
      var S := StudentIds(repo.students);
      && |r.students| == |repo.students| && StudentIds(r.students) == S
      && forall k | 0 <= k < |repo.students| ::
           r.students[k] == repo.students[k].(registeredCourses := repo.students[k].registeredCourses + Registrations(cs, S, k))
    decreases |cs|
  {
    var S := StudentIds(repo.students);
    if cs == [] {
      assert forall k | 0 <= k < |repo.students| :: repo.students[k].registeredCourses + [] == repo.students[k].registeredCourses;
    } else {
      var r1 := LoadCourse(repo, cs[0]);
      LoadCourseKeepsIds(repo, cs[0]);
      LoadCourseStudents(repo, cs[0]);
      LoadCoursesStudents(r1, cs[1..]);
      var r := LoadCourses(repo, cs);
      assert r == LoadCourses(r1, cs[1..]);
      forall k | 0 <= k < |repo.students|
        ensures r.students[k] == repo.students[k].(registeredCourses := repo.students[k].registeredCourses + Registrations(cs, S, k))
      {
        var a := repo.students[k].registeredCourses;
        var b := Repeat(cs[0].courseId, Count(cs[0].enrolledStudentIds, S, k));
        var rest := Registrations(cs[1..], S, k);
        assert Registrations(cs, S, k) == b + rest;
        ComposeRegistrations(repo.students[k], r1.students[k], r.students[k], b, rest);
      }
    }
  }

  lemma ComposeRegistrations(s0: Student, s1: Student, s2: Student, b: seq<CourseId>, rest: seq<CourseId>)
    requires s1 == s0.(registeredCourses := s0.registeredCourses + b)
    requires s2 == s1.(registeredCourses := s1.registeredCourses + rest)
    ensures s2 == s0.(registeredCourses := s0.registeredCourses + (b + rest))
  {
    assert s0.registeredCourses + b + rest == s0.registeredCourses + (b + rest);
  }

  lemma ComposeAssignments(i0: Instructor, i1: Instructor, i2: Instructor, b: seq<CourseId>, rest: seq<CourseId>)
    requires i1 == i0.(assignedCourses := i0.assignedCourses + b)
    requires i2 == i1.(assignedCourses := i1.assignedCourses + rest)
    ensures i2 == i0.(assignedCourses := i0.assignedCourses + (b + rest))
  {
    assert i0.assignedCourses + b + rest == i0.assignedCourses + (b + rest);
  }

  /** The loop over course records gives every instructor the courses whose
      instructor id resolves to it. */
  lemma {:induction false} LoadCoursesInstructors(repo: Repository, cs: seq<CourseDoc>)
    ensures var r := LoadCourses(repo, cs);
      var I := InstructorIds(repo.instructors);
      && |r.instructors| == |repo.instructors| && InstructorIds(r.instructors) == I
      && forall k | 0 <= k < |repo.instructors| ::
           r.instructors[k] == repo.instructors[k].(assignedCourses := repo.instructors[k].assignedCourses + Assignments(cs, I, k))
    decreases |cs|
  {
    var I := InstructorIds(repo.instructors);
    if cs == [] {
      assert forall k | 0 <= k < |repo.instructors| :: repo.instructors[k].assignedCourses + [] == repo.instructors[k].assignedCourses;
    } else {
      var r1 := LoadCourse(repo, cs[0]);
      LoadCourseKeepsIds(repo, cs[0]);
      LoadCourseInstructors(repo, cs[0]);
      LoadCoursesInstructors(r1, cs[1..]);
      var r := LoadCourses(repo, cs);
      assert r == LoadCourses(r1, cs[1..]);
      forall k | 0 <= k < |repo.instructors|
        ensures r.instructors[k] == repo.instructors[k].(assignedCourses := repo.instructors[k].assignedCourses + Assignments(cs, I, k))
      {
        var b := if InstructorOf(cs[0], I) == Some(k) then [cs[0].courseId] else [];
        var rest := Assignments(cs[1..], I, k);
        assert Assignments(cs, I, k) == b + rest;
        ComposeAssignments(repo.instructors[k], r1.instructors[k], r.instructors[k], b, rest);
      }
    }
  }

  /** The loop over course records appends one course object per record. */
  lemma {:induction false} LoadCoursesCourses(repo: Repository, cs: seq<CourseDoc>)
    ensures LoadCourses(repo, cs).courses ==
      repo.courses + LoadedAll(cs, StudentIds(repo.students), InstructorIds(repo.instructors))
    decreases |cs|
  {
    var S := StudentIds(repo.students);
    var I := InstructorIds(repo.instructors);
    if cs == [] {
      assert repo.courses + [] == repo.courses;
    } else {
      var r1 := LoadCourse(repo, cs[0]);
      LoadCourseKeepsIds(repo, cs[0]);
      LoadCourseCourse(repo, cs[0]);
      LoadCoursesCourses(r1, cs[1..]);
      assert LoadCourses(repo, cs) == LoadCourses(r1, cs[1..]);
      AppendAssoc(repo.courses, [LoadedCourse(LoadedFrom(cs[0], S, I))], LoadedAll(cs[1..], S, I));
    }
  }

  /** The course entries the loop appends, one per record. */
  function LoadedAll(cs: seq<CourseDoc>, students: seq<string>, instructors: seq<string>): (r: seq<CourseEntry>)
    ensures |r| == |cs|
    ensures forall m | 0 <= m < |cs| :: r[m] == LoadedCourse(LoadedFrom(cs[m], students, instructors))
    decreases |cs|
  {
    if cs == [] then []
    else [LoadedCourse(LoadedFrom(cs[0], students, instructors))] + LoadedAll(cs[1..], students, instructors)
  }

  /** One iteration keeps every id in place. */
  lemma LoadCourseKeepsIds(repo: Repository, c: CourseDoc)
    ensures var r := LoadCourse(repo, c);
      && |r.students| == |repo.students| && StudentIds(r.students) == StudentIds(repo.students)
      && |r.instructors| == |repo.instructors| && InstructorIds(r.instructors) == InstructorIds(repo.instructors)
  {
    var I := InstructorIds(repo.instructors);
    var course := NewCourse(c.courseId, c.courseName,
                            if InstructorOf(c, I).Some? then c.instructorId else None, c.enrolledStudents);
    EnrollIdsKeepsIds(course, repo.students, c.enrolledStudentIds);
    assert InstructorIds(LoadCourse(repo, c).instructors) == I;
  }

  /** One iteration registers the course once per enrolment id resolving to a student. */
  lemma LoadCourseStudents(repo: Repository, c: CourseDoc)
    ensures var r := LoadCourse(repo, c);
      var S := StudentIds(repo.students);
      |r.students| == |repo.students| &&
      forall k | 0 <= k < |repo.students| ::
        r.students[k] == repo.students[k].(registeredCourses :=
          repo.students[k].registeredCourses + Repeat(c.courseId, Count(c.enrolledStudentIds, S, k)))
  {
    var I := InstructorIds(repo.instructors);
    var course := NewCourse(c.courseId, c.courseName,
                            if InstructorOf(c, I).Some? then c.instructorId else None, c.enrolledStudents);
    EnrollIdsStudents(course, repo.students, c.enrolledStudentIds);
    EnrollIdsKeepsIds(course, repo.students, c.enrolledStudentIds);
  }

  /** One iteration assigns the course to the instructor its id resolves to. */
  lemma LoadCourseInstructors(repo: Repository, c: CourseDoc)
    ensures var r := LoadCourse(repo, c);
      var I := InstructorIds(repo.instructors);
      forall k | 0 <= k < |repo.instructors| ::
        r.instructors[k] == repo.instructors[k].(assignedCourses :=
          repo.instructors[k].assignedCourses + (if InstructorOf(c, I) == Some(k) then [c.courseId] else []))
  {
    var I := InstructorIds(repo.instructors);
    forall k | 0 <= k < |repo.instructors| && InstructorOf(c, I) != Some(k)
      ensures repo.instructors[k].assignedCourses + [] == repo.instructors[k].assignedCourses
    {
    }
  }

  /** One iteration appends the course object the record resolves to. */
  lemma LoadCourseCourse(repo: Repository, c: CourseDoc)
    ensures LoadCourse(repo, c).courses ==
      repo.courses + [LoadedCourse(LoadedFrom(c, StudentIds(repo.students), InstructorIds(repo.instructors)))]
  {
    var I := InstructorIds(repo.instructors);
    var course := NewCourse(c.courseId, c.courseName,
                            if InstructorOf(c, I).Some? then c.instructorId else None, c.enrolledStudents);
    EnrollIdsCourse(course, repo.students, c.enrolledStudentIds);
    assert ListOrEmpty(c.enrolledStudents) == course.enrolledStudents;
  }

  /** `loadData` on a parsed document: the lists start empty; instructors and
      students are built with empty course lists; every course record then
      becomes a course object whose instructor and enrolment are the ids
      that resolve, and every resolved link is recorded on the student or
      instructor side too. */
  function Load(doc: Document): (r: Repository)
    ensures |r.students| == |doc.students|
    ensures forall k | 0 <= k < |doc.students| ::
      && r.students[k].person == doc.students[k].person
      && r.students[k].studentId == doc.students[k].id
      && r.students[k].registeredCourses == Registrations(doc.courses, EntryIds(doc.students), k)
    ensures |r.instructors| == |doc.instructors|
    ensures forall k | 0 <= k < |doc.instructors| ::
      && r.instructors[k].person == doc.instructors[k].person
      && r.instructors[k].instructorId == doc.instructors[k].id
      && r.instructors[k].assignedCourses == Assignments(doc.courses, EntryIds(doc.instructors), k)
    ensures |r.courses| == |doc.courses|
    ensures forall m | 0 <= m < |doc.courses| ::
      r.courses[m] == LoadedCourse(LoadedFrom(doc.courses[m], EntryIds(doc.students), EntryIds(doc.instructors)))
  {
    LoadStudentsFrom(doc);
    LoadInstructorsFrom(doc);
    LoadCoursesFrom(doc);
    LoadCourses(LoadStart(doc), doc.courses)
  }

  /** The lists before the course records are read: the people of the file,
      each with no course, and no course entry. */
  function LoadStart(doc: Document): (r: Repository)
    ensures StudentIds(r.students) == EntryIds(doc.students)
    ensures InstructorIds(r.instructors) == EntryIds(doc.instructors)
  {
    Repository(FreshStudents(doc.students), FreshInstructors(doc.instructors), [])
  }

  lemma LoadStudentsFrom(doc: Document)
    ensures var r := LoadCourses(LoadStart(doc), doc.courses);
      && |r.students| == |doc.students|
      && forall k | 0 <= k < |doc.students| ::
        && r.students[k].person == doc.students[k].person
        && r.students[k].studentId == doc.students[k].id
        && r.students[k].registeredCourses == Registrations(doc.courses, EntryIds(doc.students), k)
  {
    var start := LoadStart(doc);
    LoadCoursesStudents(start, doc.courses);
    var r := LoadCourses(start, doc.courses);
    var S := EntryIds(doc.students);
    assert StudentIds(start.students) == S;
    forall k | 0 <= k < |doc.students|
      ensures r.students[k] == Student(doc.students[k].person, doc.students[k].id, Registrations(doc.courses, S, k))
    {
      var a := Registrations(doc.courses, S, k);
      assert r.students[k] == start.students[k].(registeredCourses := start.students[k].registeredCourses + a);
      assert start.students[k] == Student(doc.students[k].person, doc.students[k].id, []);
      assert [] + a == a;
    }
  }

  lemma LoadInstructorsFrom(doc: Document)
    ensures var r := LoadCourses(LoadStart(doc), doc.courses);
      && |r.instructors| == |doc.instructors|
      && forall k | 0 <= k < |doc.instructors| ::
        && r.instructors[k].person == doc.instructors[k].person
        && r.instructors[k].instructorId == doc.instructors[k].id
        && r.instructors[k].assignedCourses == Assignments(doc.courses, EntryIds(doc.instructors), k)
  {
    var start := LoadStart(doc);
    LoadCoursesInstructors(start, doc.courses);
    var r := LoadCourses(start, doc.courses);
    var I := EntryIds(doc.instructors);
    assert InstructorIds(start.instructors) == I;
    forall k | 0 <= k < |doc.instructors|
      ensures r.instructors[k] == Instructor(doc.instructors[k].person, doc.instructors[k].id, Assignments(doc.courses, I, k))
    {
      var a := Assignments(doc.courses, I, k);
      assert r.instructors[k] == start.instructors[k].(assignedCourses := start.instructors[k].assignedCourses + a);
      assert start.instructors[k] == Instructor(doc.instructors[k].person, doc.instructors[k].id, []);
      assert [] + a == a;
    }
  }

  lemma LoadCoursesFrom(doc: Document)
    ensures var r := LoadCourses(LoadStart(doc), doc.courses);
      r.courses == LoadedAll(doc.courses, EntryIds(doc.students), EntryIds(doc.instructors))
  {
    var S := EntryIds(doc.students);
    var I := EntryIds(doc.instructors);
    var start := LoadStart(doc);
    assert start.courses == [];
    assert StudentIds(start.students) == S && InstructorIds(start.instructors) == I;
    LoadCoursesCourses(start, doc.courses);
    assert LoadCourses(start, doc.courses).courses == start.courses + LoadedAll(doc.courses, S, I);
    assert [] + LoadedAll(doc.courses, S, I) == LoadedAll(doc.courses, S, I);
  }

  /** The students of the file, each with no course yet. */
  function FreshStudents(es: seq<PersonEntry>): (r: seq<Student>)
    ensures |r| == |es| && StudentIds(r) == EntryIds(es)
    ensures forall k | 0 <= k < |es| :: r[k] == Student(es[k].person, es[k].id, [])
  {
    var r := seq(|es|, k requires 0 <= k < |es| => Student(es[k].person, es[k].id, []));
    assert StudentIds(r) == EntryIds(es);
    r
  }

  /** The instructors of the file, each with no course yet. */
  function FreshInstructors(es: seq<PersonEntry>): (r: seq<Instructor>)
    ensures |r| == |es| && InstructorIds(r) == EntryIds(es)
    ensures forall k | 0 <= k < |es| :: r[k] == Instructor(es[k].person, es[k].id, [])
  {
    var r := seq(|es|, k requires 0 <= k < |es| => Instructor(es[k].person, es[k].id, []));
    assert InstructorIds(r) == EntryIds(es);
    r
  }

  /** An enrolment id that names a student is recorded on both sides: the
      course lists it, and the first student with that id lists the course. */
  lemma LoadLinksStudentsBothWays(doc: Document, m: nat, id: string)
    requires m < |doc.courses|
    requires id in doc.courses[m].enrolledStudentIds && id in EntryIds(doc.students)
    ensures var r := Load(doc);
      var k := Find(EntryIds(doc.students), id).value;
      && id in r.courses[m].course.enrolledStudents
      && r.students[k].studentId == id
      && doc.courses[m].courseId in r.students[k].registeredCourses
  {
    var S := EntryIds(doc.students);
    var k := Find(S, id).value;
    FilterCounts(doc.courses[m].enrolledStudentIds, Named(S));
    CountPositive(doc.courses[m].enrolledStudentIds, S, id);
    RegistrationsInclude(doc.courses, S, k, m);
  }

  /** A course's instructor id that names an instructor is recorded on both
      sides: the course has that instructor, and the first instructor with
      that id lists the course. */
  lemma LoadLinksInstructorBothWays(doc: Document, m: nat)
    requires m < |doc.courses|
    requires InstructorOf(doc.courses[m], EntryIds(doc.instructors)).Some?
    ensures var r := Load(doc);
      var k := InstructorOf(doc.courses[m], EntryIds(doc.instructors)).value;
      && r.courses[m].course.instructor == doc.courses[m].instructorId
      && r.instructors[k].instructorId == doc.courses[m].instructorId.value
      && doc.courses[m].courseId in r.instructors[k].assignedCourses
  {
    AssignmentsInclude(doc.courses, EntryIds(doc.instructors), InstructorOf(doc.courses[m], EntryIds(doc.instructors)).value, m);
  }

  /** An id that names a student, listed among the enrolment ids, is counted. */
  lemma {:induction false} CountPositive(ids: seq<string>, known: seq<string>, id: string)
    requires id in ids && id in known
    ensures Count(ids, known, Find(known, id).value) > 0
    decreases |ids|
  {
    if ids[0] != id {
      CountPositive(ids[1..], known, id);
    }
  }

  lemma {:induction false} RegistrationsInclude(cs: seq<CourseDoc>, known: seq<string>, k: nat, m: nat)
    requires m < |cs| && Count(cs[m].enrolledStudentIds, known, k) > 0
    ensures cs[m].courseId in Registrations(cs, known, k)
    decreases m
  {
    if m == 0 {
      assert Repeat(cs[0].courseId, Count(cs[0].enrolledStudentIds, known, k))[0] == cs[0].courseId;
    } else {
      RegistrationsInclude(cs[1..], known, k, m - 1);
    }
  }

  lemma {:induction false} AssignmentsInclude(cs: seq<CourseDoc>, known: seq<string>, k: nat, m: nat)
    requires m < |cs| && InstructorOf(cs[m], known) == Some(k)
    ensures cs[m].courseId in Assignments(cs, known, k)
    decreases m
  {
    if m > 0 {
      AssignmentsInclude(cs[1..], known, k, m - 1);
    }
  }

  /** An enrolment id that names no student leaves every student's courses
      untouched: resolving an unknown id skips it. */
  lemma {:induction false} UnknownIdsCountNothing(ids: seq<string>, known: seq<string>, k: nat)
    requires forall i | 0 <= i < |ids| :: ids[i] !in known
    ensures Count(ids, known, k) == 0
    decreases |ids|
  {
    if ids != [] {
      UnknownIdsCountNothing(ids[1..], known, k);
    }
  }

  // ---------------------------------------------------------------------------
  // CSV export (export_to_csv)

  type Row = seq<string>

  const Header: Row := ["Type", "ID", "Name", "Age", "Email", "Instructor", "Course Name", "Students"]

  function PersonRow(tag: string, id: string, p: Person): (r: Row)
    ensures |r| == 8 && r[0] == tag && r[1] == id && r[2] == p.name && r[3] == Decimal(p.age) && r[4] == p.email
    ensures r[5..] == ["", "", ""]
  {
    [tag, id, p.name, Decimal(p.age), p.email, "", "", ""]
  }

  /** For each id in order, the name of the first student carrying it; an id
      that no student carries contributes no name. */
  function StudentNames(students: seq<Student>, ids: seq<StudentId>): (names: seq<string>)
    ensures |names| <= |ids|
    ensures (forall k | 0 <= k < |ids| :: ids[k] in StudentIds(students)) ==> |names| == |ids|
    ensures (forall k | 0 <= k < |ids| :: ids[k] !in StudentIds(students)) ==> names == []
    ensures forall m | 0 <= m < |names| :: exists j | 0 <= j < |students| :: names[m] == students[j].person.name
    decreases |ids|
  {
    if ids == [] then []
    else
      match FindStudent(students, ids[0])
      case None => StudentNames(students, ids[1..])
      case Some(j) => [students[j].person.name] + StudentNames(students, ids[1..])
  }

  /** A course row. A dictionary entry has no `instructor` and no
      `enrolled_students` key, so both of those cells are empty. */
  function CourseRow(repo: Repository, e: CourseEntry): (r: Row)
    ensures |r| == 8 && r[0] == "Course" && r[1] == e.Id() && r[2] == e.Name() && r[6] == e.Name()
    ensures r[3] == "" && r[4] == ""
    ensures !e.LoadedCourse? ==> r[5] == "" && r[7] == ""
    ensures e.LoadedCourse? ==>
      match e.course.instructor
      case None => r[5] == ""
      case Some(id) =>
        match FindInstructor(repo.instructors, id)
        case None => r[5] == ""
        case Some(k) => r[5] == repo.instructors[k].person.name
    ensures e.LoadedCourse? ==> r[7] == Join(StudentNames(repo.students, e.course.enrolledStudents), ", ")
  {
    match e
    case CatalogCourse(id, name) => ["Course", id, name, "", "", "", name, ""]
    case FormCourse(id, name, _, _) => ["Course", id, name, "", "", "", name, ""]
    case LoadedCourse(c) =>
      var instructor := match c.instructor
        case None => ""
        case Some(id) =>
          (match FindInstructor(repo.instructors, id)
           case None => ""
           case Some(k) => repo.instructors[k].person.name);
      ["Course", c.courseId, c.courseName, "", "", instructor, c.courseName, Join(StudentNames(repo.students, c.enrolledStudents), ", ")]
  }

  /** Row `n` of the export: the header, then the students, the instructors
      and the course entries. */
  function RowAt(repo: Repository, n: nat): (r: Row)
    requires n < 1 + |repo.students| + |repo.instructors| + |repo.courses|
    ensures |r| == 8
    ensures n == 0 ==> r == Header
    ensures 1 <= n < 1 + |repo.students| ==>
      r == PersonRow("Student", repo.students[n - 1].studentId, repo.students[n - 1].person)
    ensures 1 + |repo.students| <= n < 1 + |repo.students| + |repo.instructors| ==>
      r == PersonRow("Instructor", repo.instructors[n - 1 - |repo.students|].instructorId,
                     repo.instructors[n - 1 - |repo.students|].person)
    ensures 1 + |repo.students| + |repo.instructors| <= n ==>
      r == CourseRow(repo, repo.courses[n - 1 - |repo.students| - |repo.instructors|])
  {
    var ns := |repo.students|;
    var ni := |repo.instructors|;
    if n == 0 then Header
    else if n < 1 + ns then PersonRow("Student", repo.students[n - 1].studentId, repo.students[n - 1].person)
    else if n < 1 + ns + ni then
      PersonRow("Instructor", repo.instructors[n - 1 - ns].instructorId, repo.instructors[n - 1 - ns].person)
    else CourseRow(repo, repo.courses[n - 1 - ns - ni])
  }

  /** `export_to_csv`: the header, then one row per student, per instructor
      and per course entry, in list order, each eight cells wide and tagged
      with its kind in the first column and its id in the second. */
  function CsvRows(repo: Repository): (rows: seq<Row>)
    ensures |rows| == 1 + |repo.students| + |repo.instructors| + |repo.courses|
    ensures rows[0] == Header
    ensures forall i | 0 <= i < |rows| :: |rows[i]| == 8
    ensures forall k | 0 <= k < |repo.students| ::
      rows[1 + k][0] == "Student" && rows[1 + k][1] == repo.students[k].studentId &&
      rows[1 + k][2] == repo.students[k].person.name && rows[1 + k][3] == Decimal(repo.students[k].person.age) &&
      rows[1 + k][4] == repo.students[k].person.email &&
      rows[1 + k][5..] == ["", "", ""]
    ensures forall k | 0 <= k < |repo.instructors| ::
      var row := rows[1 + |repo.students| + k];
      row[0] == "Instructor" && row[1] == repo.instructors[k].instructorId &&
      row[2] == repo.instructors[k].person.name && row[3] == Decimal(repo.instructors[k].person.age) &&
      row[4] == repo.instructors[k].person.email &&
      row[5..] == ["", "", ""]
    ensures forall k | 0 <= k < |repo.courses| ::
      var row := rows[1 + |repo.students| + |repo.instructors| + k];
      row == CourseRow(repo, repo.courses[k]) &&
      row[0] == "Course" && row[1] == repo.courses[k].Id() && row[2] == repo.courses[k].Name()
  {
    var rows := AllRows(repo);
    StudentRowsShape(repo, rows);
    InstructorRowsShape(repo, rows);
    CourseRowsShape(repo, rows);
    rows
  }

  /** Every row of the export, by position. */
  function AllRows(repo: Repository): (rows: seq<Row>)
    ensures |rows| == 1 + |repo.students| + |repo.instructors| + |repo.courses|
    ensures forall n | 0 <= n < |rows| :: rows[n] == RowAt(repo, n) && |rows[n]| == 8
  {
    var total := 1 + |repo.students| + |repo.instructors| + |repo.courses|;
    seq(total, n requires 0 <= n < total => RowAt(repo, n))
  }

  lemma StudentRowsShape(repo: Repository, rows: seq<Row>)
    requires |rows| == 1 + |repo.students| + |repo.instructors| + |repo.courses|
    requires forall n | 0 <= n < |rows| :: rows[n] == RowAt(repo, n) && |rows[n]| == 8
    ensures forall k | 0 <= k < |repo.students| ::
      rows[1 + k][0] == "Student" && rows[1 + k][1] == repo.students[k].studentId &&
      rows[1 + k][2] == repo.students[k].person.name && rows[1 + k][3] == Decimal(repo.students[k].person.age) &&
      rows[1 + k][4] == repo.students[k].person.email &&
      rows[1 + k][5..] == ["", "", ""]
  {
    forall k | 0 <= k < |repo.students|
      ensures rows[1 + k] == PersonRow("Student", repo.students[k].studentId, repo.students[k].person)
    {
      assert rows[1 + k] == RowAt(repo, 1 + k);
    }
  }

  lemma InstructorRowsShape(repo: Repository, rows: seq<Row>)
    requires |rows| == 1 + |repo.students| + |repo.instructors| + |repo.courses|
    requires forall n | 0 <= n < |rows| :: rows[n] == RowAt(repo, n) && |rows[n]| == 8
    ensures forall k | 0 <= k < |repo.instructors| ::
      var row := rows[1 + |repo.students| + k];
      row[0] == "Instructor" && row[1] == repo.instructors[k].instructorId &&
      row[2] == repo.instructors[k].person.name && row[3] == Decimal(repo.instructors[k].person.age) &&
      row[4] == repo.instructors[k].person.email &&
      row[5..] == ["", "", ""]
  {
    forall k | 0 <= k < |repo.instructors|
      ensures rows[1 + |repo.students| + k] ==
        PersonRow("Instructor", repo.instructors[k].instructorId, repo.instructors[k].person)
    {
      var n := 1 + |repo.students| + k;
      assert n - 1 - |repo.students| == k;
      assert rows[n] == RowAt(repo, n);
    }
  }

  lemma CourseRowsShape(repo: Repository, rows: seq<Row>)
    requires |rows| == 1 + |repo.students| + |repo.instructors| + |repo.courses|
    requires forall n | 0 <= n < |rows| :: rows[n] == RowAt(repo, n) && |rows[n]| == 8
    ensures forall k | 0 <= k < |repo.courses| ::
      var row := rows[1 + |repo.students| + |repo.instructors| + k];
      row == CourseRow(repo, repo.courses[k]) &&
      row[0] == "Course" && row[1] == repo.courses[k].Id() && row[2] == repo.courses[k].Name()
  {
    forall k | 0 <= k < |repo.courses|
      ensures rows[1 + |repo.students| + |repo.instructors| + k] == CourseRow(repo, repo.courses[k])
    {
      var n := 1 + |repo.students| + |repo.instructors| + k;
      assert n - 1 - |repo.students| - |repo.instructors| == k;
      assert rows[n] == RowAt(repo, n);
    }
  }

  /** The Age cell of every person row reads back as that person's age. */
  lemma CsvAgeReadsBack(repo: Repository)
    ensures var rows := CsvRows(repo);
      && (forall k | 0 <= k < |repo.students| ::
            AllDigits(rows[1 + k][3]) && DecimalValue(rows[1 + k][3]) == repo.students[k].person.age)
      && (forall k | 0 <= k < |repo.instructors| ::
            AllDigits(rows[1 + |repo.students| + k][3]) &&
            DecimalValue(rows[1 + |repo.students| + k][3]) == repo.instructors[k].person.age)
  {
    CsvStudentAges(repo);
    CsvInstructorAges(repo);
  }

  lemma CsvStudentAges(repo: Repository)
    ensures var rows := CsvRows(repo);
      forall k | 0 <= k < |repo.students| ::
        AllDigits(rows[1 + k][3]) && DecimalValue(rows[1 + k][3]) == repo.students[k].person.age
  {
    forall k | 0 <= k < |repo.students|
      ensures AllDigits(CsvRows(repo)[1 + k][3]) && DecimalValue(CsvRows(repo)[1 + k][3]) == repo.students[k].person.age
    {
      AgeCellReadsBack(CsvRows(repo), 1 + k, repo.students[k].person.age);
    }
  }

  lemma CsvInstructorAges(repo: Repository)
    ensures var rows := CsvRows(repo);
      forall k | 0 <= k < |repo.instructors| ::
        AllDigits(rows[1 + |repo.students| + k][3]) &&
        DecimalValue(rows[1 + |repo.students| + k][3]) == repo.instructors[k].person.age
  {
    forall k | 0 <= k < |repo.instructors|
      ensures AllDigits(CsvRows(repo)[1 + |repo.students| + k][3]) &&
              DecimalValue(CsvRows(repo)[1 + |repo.students| + k][3]) == repo.instructors[k].person.age
    {
      AgeCellReadsBack(CsvRows(repo), 1 + |repo.students| + k, repo.instructors[k].person.age);
    }
  }

  /** A row whose Age cell is the numeral of `age` reads back as `age`. */
  lemma AgeCellReadsBack(rows: seq<Row>, n: nat, age: nat)
    requires n < |rows| && |rows[n]| == 8 && rows[n][3] == Decimal(age)
    ensures AllDigits(rows[n][3]) && DecimalValue(rows[n][3]) == age
  {
    DecimalRoundTrip(age);
  }
}
