/** The data logic of the main window (PyQTdocumented.py, class `MainWindow`),
    with the widgets taken away: the three lists the window owns, and one pure
    function per form or button handler. A handler that shows an error box and
    returns early yields `Err`; a handler that changes the lists yields the new
    repository. */
module Session {
  import opened Wrappers
  import opened Text
  import opened Seqs
  import opened Entities
  import EmailRules

  /** An entry of `available_courses`. The window starts with three catalogue
      dictionaries holding only an id and a name (`CatalogCourse`); the course
      form appends a dictionary with the raw form text (`FormCourse`); loading
      a file appends `Course` objects (`LoadedCourse`). */
  datatype CourseEntry =
    | CatalogCourse(catalogId: CourseId, catalogName: string)
    | FormCourse(formId: CourseId, formName: string, instructorText: string, studentIdTexts: seq<string>)
    | LoadedCourse(course: Course)
  {
    /** `course['course_id']` or `course.course_id`. */
    function Id(): CourseId {
      match this
      case CatalogCourse(id, _) => id
      case FormCourse(id, _, _, _) => id
      case LoadedCourse(c) => c.courseId
    }

    /** `course['course_name']` or `course.course_name`. */
    function Name(): string {
      match this
      case CatalogCourse(_, name) => name
      case FormCourse(_, name, _, _) => name
      case LoadedCourse(c) => c.courseName
    }
  }

  /** `self.students`, `self.instructors` and `self.available_courses`. */
  datatype Repository = Repository(students: seq<Student>, instructors: seq<Instructor>, courses: seq<CourseEntry>)

  /** The lists as the window starts: no student, no instructor, and the
      three catalogue courses. */
  const Initial := Repository([], [], [
    CatalogCourse("CS101", "Introduction to Computer Science"),
    CatalogCourse("MATH101", "Calculus I"),
    CatalogCourse("PHYS101", "Physics I")])

  // ---------------------------------------------------------------------------
  // Lookup by id (first match wins)

  function StudentIds(students: seq<Student>): (ids: seq<StudentId>)
    ensures |ids| == |students|
    ensures forall k | 0 <= k < |students| :: ids[k] == students[k].studentId
  {
    seq(|students|, k requires 0 <= k < |students| => students[k].studentId)
  }

  function InstructorIds(instructors: seq<Instructor>): (ids: seq<InstructorId>)
    ensures |ids| == |instructors|
    ensures forall k | 0 <= k < |instructors| :: ids[k] == instructors[k].instructorId
  {
    seq(|instructors|, k requires 0 <= k < |instructors| => instructors[k].instructorId)
  }

  /** The position of the first id equal to `id` in `ids`, or `None`. */
  function Find(ids: seq<string>, id: string): (r: Option<nat>)
    ensures r.Some? ==> r.value < |ids| && ids[r.value] == id && forall j | 0 <= j < r.value :: ids[j] != id
    ensures r.None? <==> id !in ids
  {
    FirstIndex(ids, (x: string) => x == id)
  }

  /** `next((s for s in students if s.student_id == id), None)`, by position. */
  function FindStudent(students: seq<Student>, id: StudentId): (r: Option<nat>)
    ensures r.Some? ==> r.value < |students| && students[r.value].studentId == id
    ensures r.Some? ==> forall j | 0 <= j < r.value :: students[j].studentId != id
    ensures r.None? <==> forall j | 0 <= j < |students| :: students[j].studentId != id
  {
    var r := Find(StudentIds(students), id);
    assert r.None? ==> forall j | 0 <= j < |students| :: StudentIds(students)[j] != id;
    r
  }

  /** The first instructor whose id is `id`, by position. */
  function FindInstructor(instructors: seq<Instructor>, id: InstructorId): (r: Option<nat>)
    ensures r.Some? ==> r.value < |instructors| && instructors[r.value].instructorId == id
    ensures r.Some? ==> forall j | 0 <= j < r.value :: instructors[j].instructorId != id
    ensures r.None? <==> forall j | 0 <= j < |instructors| :: instructors[j].instructorId != id
  {
    var r := Find(InstructorIds(instructors), id);
    assert r.None? ==> forall j | 0 <= j < |instructors| :: InstructorIds(instructors)[j] != id;
    r
  }

  // ---------------------------------------------------------------------------
  // Search (searchRecords)

  datatype Kind = StudentKind | InstructorKind | CourseKind

  /** One row of the record table: a student, an instructor or a course entry. */
  datatype Record = StudentRecord(student: Student) | InstructorRecord(instructor: Instructor) | CourseRecord(entry: CourseEntry)
  {
    function Kind(): Kind {
      match this
      case StudentRecord(_) => StudentKind
      case InstructorRecord(_) => InstructorKind
      case CourseRecord(_) => CourseKind
    }

    /** The text search compares as the name: a person's name or a course's name. */
    function SearchName(): string {
      match this
      case StudentRecord(s) => s.person.name
      case InstructorRecord(i) => i.person.name
      case CourseRecord(e) => e.Name()
    }

    /** The text search compares as the id. */
    function SearchId(): string {
      match this
      case StudentRecord(s) => s.studentId
      case InstructorRecord(i) => i.instructorId
      case CourseRecord(e) => e.Id()
    }
  }

  /** Students come first, then instructors, then courses. */
  function Rank(r: Record): int {
    match r
    case StudentRecord(_) => 0
    case InstructorRecord(_) => 1
    case CourseRecord(_) => 2
  }

  /** Every record of the repository: all students, then all instructors,
      then all course entries, each group in list order. */
  function AllRecords(repo: Repository): (rs: seq<Record>)
    ensures |rs| == |repo.students| + |repo.instructors| + |repo.courses|
    ensures Ascending(rs, Rank)
    ensures forall k | 0 <= k < |repo.students| :: rs[k] == StudentRecord(repo.students[k])
    ensures forall k | 0 <= k < |repo.instructors| :: rs[|repo.students| + k] == InstructorRecord(repo.instructors[k])
    ensures forall k | 0 <= k < |repo.courses| ::
      rs[|repo.students| + |repo.instructors| + k] == CourseRecord(repo.courses[k])
  {
    var total := |repo.students| + |repo.instructors| + |repo.courses|;
    seq(total, n requires 0 <= n < total => RecordAt(repo, n))
  }

  /** Record `n` of the listing: students, then instructors, then courses. */
  function RecordAt(repo: Repository, n: nat): (r: Record)
    requires n < |repo.students| + |repo.instructors| + |repo.courses|
    ensures n < |repo.students| ==> r == StudentRecord(repo.students[n]) && Rank(r) == 0
    ensures |repo.students| <= n < |repo.students| + |repo.instructors| ==>
      r == InstructorRecord(repo.instructors[n - |repo.students|]) && Rank(r) == 1
    ensures |repo.students| + |repo.instructors| <= n ==>
      r == CourseRecord(repo.courses[n - |repo.students| - |repo.instructors|]) && Rank(r) == 2
  {
    var ns := |repo.students|;
    var ni := |repo.instructors|;
    if n < ns then StudentRecord(repo.students[n])
    else if n < ns + ni then InstructorRecord(repo.instructors[n - ns])
    else CourseRecord(repo.courses[n - ns - ni])
  }

  /** The search condition: the lower-cased term is in the lower-cased name or
      the lower-cased id. */
  predicate Matches(term: string, r: Record) {
    var t := Lower(term);
    Contains(Lower(r.SearchName()), t) || Contains(Lower(r.SearchId()), t)
  }

  /** `searchRecords`: the matching records, students first, then instructors,
      then courses, each group in list order, each record as often as it is
      in its list. */
  function Search(repo: Repository, term: string): (r: seq<Record>)
    ensures IsSubsequence(r, AllRecords(repo))
    ensures Ascending(r, Rank)
    ensures forall x :: multiset(r)[x] == if Matches(term, x) then multiset(AllRecords(repo))[x] else 0
    ensures forall x :: x in r <==> x in AllRecords(repo) && Matches(term, x)
  {
    var all := AllRecords(repo);
    var keep := (x: Record) => Matches(term, x);
    FilterCounts(all, keep);
    SubsequenceAscending(Filter(all, keep), all, Rank);
    Filter(all, keep)
  }

  /** The empty term is in every string, so searching for it lists every record. */
  lemma SearchEmptyTermListsAll(repo: Repository)
    ensures Search(repo, "") == AllRecords(repo)
  {
    var all := AllRecords(repo);
    forall k | 0 <= k < |all|
      ensures Matches("", all[k])
    {
      assert Lower("") == "";
      EmptyIsContained(Lower(all[k].SearchName()));
    }
    FilterKeepsAll(all, (x: Record) => Matches("", x));
  }

  /** A record is found exactly when the lower-cased term occurs, at some
      position, in its lower-cased name or in its lower-cased id. */
  lemma SearchFindsSubstrings(repo: Repository, term: string, x: Record)
    ensures x in Search(repo, term) <==>
      x in AllRecords(repo) &&
      ((exists i :: OccursAt(Lower(x.SearchName()), Lower(term), i)) ||
       (exists i :: OccursAt(Lower(x.SearchId()), Lower(term), i)))
  {
    ContainsIffOccurs(Lower(x.SearchName()), Lower(term));
    ContainsIffOccurs(Lower(x.SearchId()), Lower(term));
  }

  /** Why the search as written fails: an instructor has no `courses`
      attribute, and a course object cannot be subscripted. */
  datatype SearchFailure = NoCoursesAttribute | NotSubscriptable

  /** `searchRecords` as written. The row of a matching instructor reads
      `c['course_id'] in instructor.courses` for each course entry `c`, and
      `Instructor` has no `courses` attribute, so the handler raises as soon
      as one instructor matches while a course entry exists; the course loop
      subscripts every entry, which raises on a loaded course object. */
  function SearchAsWritten(repo: Repository, term: string): (r: Result<seq<Record>, SearchFailure>)
    ensures r.Ok? <==>
      && (|repo.courses| == 0 || forall k | 0 <= k < |repo.instructors| :: !Matches(term, InstructorRecord(repo.instructors[k])))
      && (forall m | 0 <= m < |repo.courses| :: !repo.courses[m].LoadedCourse?)
    ensures r == Err(NoCoursesAttribute) <==>
      && |repo.courses| > 0 && !repo.courses[0].LoadedCourse?
      && exists k | 0 <= k < |repo.instructors| :: Matches(term, InstructorRecord(repo.instructors[k]))
    ensures r.Ok? ==> r.value == Search(repo, term)
  {
    if |repo.courses| > 0 && exists k | 0 <= k < |repo.instructors| :: Matches(term, InstructorRecord(repo.instructors[k])) then
      Err(if repo.courses[0].LoadedCourse? then NotSubscriptable else NoCoursesAttribute)
    else if exists m | 0 <= m < |repo.courses| :: repo.courses[m].LoadedCourse? then
      Err(NotSubscriptable)
    else
      Ok(Search(repo, term))
  }

  /** One instructor, one course and the empty term: the search as written
      raises, while the search the handler is meant to run lists both. */
  lemma SearchAsWrittenFailsOnInstructor()
    ensures var repo := Repository([], [Instructor(Person("Ann", 40, "ann@x.com"), "I1", [])], [FormCourse("C1", "Algebra", "I1", ["S1"])]);
            SearchAsWritten(repo, "") == Err(NoCoursesAttribute) && |Search(repo, "")| == 2
  {
    var repo := Repository([], [Instructor(Person("Ann", 40, "ann@x.com"), "I1", [])], [FormCourse("C1", "Algebra", "I1", ["S1"])]);
    SearchEmptyTermListsAll(repo);
    assert Lower("") == "";
    EmptyIsContained(Lower("Ann"));
    assert Matches("", InstructorRecord(repo.instructors[0]));
  }

  // ---------------------------------------------------------------------------
  // Delete (deleteRecord)

  /** `deleteRecord`: the list of the given kind loses exactly the records
      with that id; the other lists are untouched. Courses cannot be deleted. */
  function Delete(repo: Repository, kind: Kind, id: string): (r: Repository)
    ensures kind == StudentKind ==>
      && r.instructors == repo.instructors && r.courses == repo.courses
      && IsSubsequence(r.students, repo.students)
      && (forall s :: multiset(r.students)[s] == if s.studentId == id then 0 else multiset(repo.students)[s])
    ensures kind == InstructorKind ==>
      && r.students == repo.students && r.courses == repo.courses
      && IsSubsequence(r.instructors, repo.instructors)
      && (forall i :: multiset(r.instructors)[i] == if i.instructorId == id then 0 else multiset(repo.instructors)[i])
    ensures kind == CourseKind ==> r == repo
  {
    match kind
    case StudentKind =>
      var keep := (s: Student) => s.studentId != id;
      FilterCounts(repo.students, keep);
      repo.(students := Filter(repo.students, keep))
    case InstructorKind =>
      var keep := (i: Instructor) => i.instructorId != id;
      FilterCounts(repo.instructors, keep);
      repo.(instructors := Filter(repo.instructors, keep))
    case CourseKind => repo
  }

  /** Deleting an id no record of that kind carries changes nothing. */
  lemma DeleteMissingIsNoOp(repo: Repository, kind: Kind, id: string)
    requires kind == StudentKind ==> forall k | 0 <= k < |repo.students| :: repo.students[k].studentId != id
    requires kind == InstructorKind ==> forall k | 0 <= k < |repo.instructors| :: repo.instructors[k].instructorId != id
    ensures Delete(repo, kind, id) == repo
  {
    match kind
    case StudentKind =>
      FilterKeepsAll(repo.students, (s: Student) => s.studentId != id);
    case InstructorKind =>
      FilterKeepsAll(repo.instructors, (i: Instructor) => i.instructorId != id);
    case CourseKind =>
  }

  // ---------------------------------------------------------------------------
  // Edit (editRecord)

  /** What the three input dialogs return: the text, or `None` when the
      dialog was cancelled. A dialog after a rejected field is never shown,
      so its answer is not read. */
  datatype EditAnswers = EditAnswers(name: Option<string>, age: Option<string>, email: Option<string>)

  datatype Field = NameField | AgeField | EmailField

  datatype EditStatus = Edited | Rejected(field: Field) | NoSuchRecord | NotEditable

  /** A name is accepted when it holds a character that is not whitespace. */
  predicate NameAcceptable(answer: Option<string>) {
    answer.Some? && exists j | 0 <= j < |answer.value| :: !IsSpace(answer.value[j])
  }

  /** An age is accepted when it is a non-empty run of digits that is not all
      zeros, i.e. it reads as a number greater than zero. */
  predicate AgeAcceptable(answer: Option<string>) {
    answer.Some? && answer.value != [] && AllDigits(answer.value)
    && exists j | 0 <= j < |answer.value| :: answer.value[j] != '0'
  }

  /** An e-mail is accepted when some prefix of it has the shape `[^@]+@[^@]+\.[^@]+`. */
  ghost predicate EmailAcceptable(answer: Option<string>) {
    answer.Some? && EmailRules.LoosePattern(answer.value)
  }

  datatype PersonEdit = PersonEdit(person: Person, status: EditStatus)

  /** The three dialogs of `editRecord` on one person: name, then age, then
      e-mail. The first rejected field stops the edit; the fields accepted
      before it keep their new values. */
  function EditPerson(p: Person, a: EditAnswers): (r: PersonEdit)
    ensures r.status == Edited <==> NameAcceptable(a.name) && AgeAcceptable(a.age) && EmailAcceptable(a.email)
    ensures r.status.Edited? || r.status.Rejected?
    ensures !NameAcceptable(a.name) ==> r == PersonEdit(p, Rejected(NameField))
    ensures NameAcceptable(a.name) ==> r.person.name == Strip(a.name.value)
    ensures NameAcceptable(a.name) && !AgeAcceptable(a.age) ==> r == PersonEdit(p.(name := Strip(a.name.value)), Rejected(AgeField))
    ensures NameAcceptable(a.name) && AgeAcceptable(a.age) ==> r.person.age == DecimalValue(a.age.value) > 0
    ensures NameAcceptable(a.name) && AgeAcceptable(a.age) && !EmailAcceptable(a.email) ==>
      r == PersonEdit(Person(Strip(a.name.value), DecimalValue(a.age.value), p.email), Rejected(EmailField))
    ensures r.status == Edited ==> r.person == Person(Strip(a.name.value), DecimalValue(a.age.value), a.email.value)
  {
    EditChecksMeanAcceptance(a);
    if !(a.name.Some? && Strip(a.name.value) != []) then
      PersonEdit(p, Rejected(NameField))
    else
      var p1 := p.(name := Strip(a.name.value));
      if !(a.age.Some? && a.age.value != [] && AllDigits(a.age.value) && DecimalValue(a.age.value) > 0) then
        PersonEdit(p1, Rejected(AgeField))
      else
        var p2 := p1.(age := DecimalValue(a.age.value));
        if !(a.email.Some? && EmailRules.LooseAccepts(a.email.value)) then
          PersonEdit(p2, Rejected(EmailField))
        else
          PersonEdit(p2.(email := a.email.value), Edited)
  }

  /** The checks `editRecord` runs decide the three acceptance conditions. */
  lemma EditChecksMeanAcceptance(a: EditAnswers)
    ensures NameAcceptable(a.name) <==> a.name.Some? && Strip(a.name.value) != []
    ensures AgeAcceptable(a.age) <==>
      a.age.Some? && a.age.value != [] && AllDigits(a.age.value) && DecimalValue(a.age.value) > 0
    ensures EmailAcceptable(a.email) <==> a.email.Some? && EmailRules.LooseAccepts(a.email.value)
  {
    if a.age.Some? && AllDigits(a.age.value) {
      DecimalPositiveIffNonZeroDigit(a.age.value);
    }
    if a.email.Some? {
      EmailRules.LooseAcceptsIffPattern(a.email.value);
    }
  }

  datatype EditOutcome = EditOutcome(repo: Repository, status: EditStatus)

  /** `editRecord` as intended, for the record of the given kind and id. Only
      the first record with the id is edited, and only its name, age and
      e-mail; an id no record carries changes nothing, which is what the
      `if student:` and `if instructor:` guards are there for. */
  function Edit(repo: Repository, kind: Kind, id: string, a: EditAnswers): (r: EditOutcome)
    ensures kind == CourseKind ==> r == EditOutcome(repo, NotEditable)
    ensures kind == StudentKind ==>
      match FindStudent(repo.students, id)
      case None => r == EditOutcome(repo, NoSuchRecord)
      case Some(j) =>
        var e := EditPerson(repo.students[j].person, a);
        && r.status == e.status
        && r.repo.instructors == repo.instructors && r.repo.courses == repo.courses
        && |r.repo.students| == |repo.students|
        && r.repo.students[j] == repo.students[j].(person := e.person)
        && forall k | 0 <= k < |repo.students| && k != j :: r.repo.students[k] == repo.students[k]
    ensures kind == InstructorKind ==>
      match FindInstructor(repo.instructors, id)
      case None => r == EditOutcome(repo, NoSuchRecord)
      case Some(j) =>
        var e := EditPerson(repo.instructors[j].person, a);
        && r.status == e.status
        && r.repo.students == repo.students && r.repo.courses == repo.courses
        && |r.repo.instructors| == |repo.instructors|
        && r.repo.instructors[j] == repo.instructors[j].(person := e.person)
        && forall k | 0 <= k < |repo.instructors| && k != j :: r.repo.instructors[k] == repo.instructors[k]
  {
    match kind
    case StudentKind =>
      (match FindStudent(repo.students, id)
       case None => EditOutcome(repo, NoSuchRecord)
       case Some(j) =>
         var e := EditPerson(repo.students[j].person, a);
         EditOutcome(repo.(students := repo.students[j := repo.students[j].(person := e.person)]), e.status))
    case InstructorKind =>
      (match FindInstructor(repo.instructors, id)
       case None => EditOutcome(repo, NoSuchRecord)
       case Some(j) =>
         var e := EditPerson(repo.instructors[j].person, a);
         EditOutcome(repo.(instructors := repo.instructors[j := repo.instructors[j].(person := e.person)]), e.status))
    case CourseKind => EditOutcome(repo, NotEditable)
  }

  /** Why `editRecord` as written raises: the e-mail dialog of the student
      branch reads `student._email` outside the `if student:` guard, so a
      missing student is `None` there; the age check of the instructor branch
      sits outside the `if instructor:` guard and reads `ok` and `booll`,
      which were never bound when no instructor has the id. */
  datatype EditFailure = NoneHasNoEmail | AnswerUnbound

  /** `editRecord` as written: it behaves as `Edit` when a record has the id,
      and raises for a missing student or instructor id. */
  function EditAsWritten(repo: Repository, kind: Kind, id: string, a: EditAnswers): (r: Result<EditOutcome, EditFailure>)
    ensures r.Err? <==>
      (kind == StudentKind && id !in StudentIds(repo.students)) ||
      (kind == InstructorKind && id !in InstructorIds(repo.instructors))
    ensures kind == StudentKind && r.Err? ==> r.error == NoneHasNoEmail
    ensures kind == InstructorKind && r.Err? ==> r.error == AnswerUnbound
    ensures r.Ok? ==> r.value == Edit(repo, kind, id, a) && r.value.status != NoSuchRecord
  {
    match kind
    case StudentKind =>
      if FindStudent(repo.students, id).None? then Err(NoneHasNoEmail) else Ok(Edit(repo, kind, id, a))
    case InstructorKind =>
      if FindInstructor(repo.instructors, id).None? then Err(AnswerUnbound) else Ok(Edit(repo, kind, id, a))
    case CourseKind => Ok(Edit(repo, kind, id, a))
  }

  /** In the window as it starts there is no person, so editing any student
      id raises as written, while the intended edit leaves the lists as they
      are; the same holds for an instructor id. */
  lemma EditAsWrittenFailsOnMissingId(id: string, a: EditAnswers)
    ensures EditAsWritten(Initial, StudentKind, id, a) == Err(NoneHasNoEmail)
    ensures Edit(Initial, StudentKind, id, a) == EditOutcome(Initial, NoSuchRecord)
    ensures EditAsWritten(Initial, InstructorKind, id, a) == Err(AnswerUnbound)
    ensures Edit(Initial, InstructorKind, id, a) == EditOutcome(Initial, NoSuchRecord)
  {
    assert StudentIds(Initial.students) == [];
    assert InstructorIds(Initial.instructors) == [];
  }

  /** In the window as it starts the search as written never fails: there is
      no instructor to match and every course entry is a dictionary. */
  lemma InitialSearchSucceeds(term: string)
    ensures SearchAsWritten(Initial, term) == Ok(Search(Initial, term))
  {
    assert |Initial.instructors| == 0;
    assert forall m | 0 <= m < |Initial.courses| :: !Initial.courses[m].LoadedCourse?;
  }

  /** The edit dialog rejects age 0, which the constructor's `validate_age` accepts. */
  lemma EditAgeStricterThanValidateAge(t: string)
    requires t != [] && AllDigits(t)
    ensures AgeAcceptable(Some(t)) ==> ValidateAge(Whole(DecimalValue(t))).Ok?
    ensures ValidateAge(Whole(DecimalValue("0"))).Ok? && !AgeAcceptable(Some("0"))
  {
    assert AllDigits("0");
    assert "0"[..0] == [];
  }

  /** The edit dialog's e-mail check only looks at a prefix: "a@b.c@" passes
      it although the constructor's check rejects it. */
  lemma EditEmailLooserThanValidateEmail()
    ensures EmailAcceptable(Some("a@b.c@"))
    ensures ValidateEmail("a@b.c@").Err?
  {
    assert EmailRules.LooseSplit("a@b.c@", 1, 3) by {
      assert "a@b.c@"[..1] == "a";
      assert "a@b.c@"[2..3] == "b";
    }
    var s := "a@b.c@";
    var step := EmailRules.AddressStep;
    var start := EmailRules.Start;
    assert s[..5] == "a@b.c" && "a@b.c"[..4] == "a@b." && "a@b."[..3] == "a@b" && "a@b"[..2] == "a@" && "a@"[..1] == "a";
    assert EmailRules.Run(step, start, "a@b.c") == EmailRules.Label;
    assert EmailRules.Run(step, start, s) == EmailRules.Dead;
    EmailRules.AddressAcceptsIffPattern(s);
  }

  // ---------------------------------------------------------------------------
  // Adding records (addStudent, addInstructor, addCourse)

  /** `addStudent`: the validated student is appended with no registered
      course. The course chosen in the form only appears in the success
      message. */
  function AddStudentRecord(repo: Repository, name: string, age: AgeArg, email: string, studentId: StudentId,
                            selectedCourse: Option<CourseId>): (r: Result<Repository, ValidationError>)
    ensures r.Ok? <==> NewPerson(name, age, email).Ok?
    ensures r.Err? ==> r.error == NewPerson(name, age, email).error
    ensures r.Ok? ==> r.value.instructors == repo.instructors && r.value.courses == repo.courses
    ensures r.Ok? ==> r.value.students == repo.students + [Student(NewPerson(name, age, email).value, studentId, [])]
  {
    match NewStudent(name, age, email, studentId, None)
    case Err(e) => Err(e)
    case Ok(s) => Ok(repo.(students := repo.students + [s]))
  }

  /** The first course entry whose id is the selected one; no entry matches
      when nothing is selected. */
  function FindCourse(courses: seq<CourseEntry>, selected: Option<CourseId>): (r: Option<nat>)
    ensures r.Some? ==> selected.Some? && r.value < |courses| && courses[r.value].Id() == selected.value
    ensures r.Some? ==> forall j | 0 <= j < r.value :: courses[j].Id() != selected.value
    ensures r.None? <==> selected.None? || forall j | 0 <= j < |courses| :: courses[j].Id() != selected.value
  {
    FirstIndex(courses, (c: CourseEntry) => selected.Some? && c.Id() == selected.value)
  }

  /** `addInstructor`: the validated instructor is appended; then, when a
      course entry has the selected id, the first instructor carrying the new
      instructor's id (the new one, unless an earlier instructor has the same
      id) is assigned that course. */
  function AddInstructorRecord(repo: Repository, name: string, age: AgeArg, email: string, instructorId: InstructorId,
                               selectedCourse: Option<CourseId>): (r: Result<Repository, ValidationError>)
    ensures r.Ok? <==> NewPerson(name, age, email).Ok?
    ensures r.Err? ==> r.error == NewPerson(name, age, email).error
    ensures r.Ok? ==> r.value.students == repo.students && r.value.courses == repo.courses
    ensures r.Ok? ==> |r.value.instructors| == |repo.instructors| + 1
    ensures r.Ok? && FindCourse(repo.courses, selectedCourse).None? ==>
      r.value.instructors == repo.instructors + [Instructor(NewPerson(name, age, email).value, instructorId, [])]
    ensures r.Ok? && FindCourse(repo.courses, selectedCourse).Some? && FindInstructor(repo.instructors, instructorId).None? ==>
      r.value.instructors == repo.instructors + [Instructor(NewPerson(name, age, email).value, instructorId, [selectedCourse.value])]
    ensures r.Ok? && FindCourse(repo.courses, selectedCourse).Some? && FindInstructor(repo.instructors, instructorId).Some? ==>
      var j := FindInstructor(repo.instructors, instructorId).value;
      r.value.instructors == repo.instructors[j := AssignCourse(repo.instructors[j], selectedCourse.value)]
                             + [Instructor(NewPerson(name, age, email).value, instructorId, [])]
  {
    match NewInstructor(name, age, email, instructorId, None)
    case Err(e) => Err(e)
    case Ok(i) =>
      var all := repo.instructors + [i];
      match FindCourse(repo.courses, selectedCourse)
      case None => Ok(repo.(instructors := all))
      case Some(c) =>
        FindInstructorAppend(repo.instructors, i);
        var j := FindInstructor(all, instructorId).value;
        AssignInAppended(repo.instructors, i, j, repo.courses[c].Id());
        Ok(repo.(instructors := all[j := AssignCourse(all[j], repo.courses[c].Id())]))
  }

  /** Assigning a course in a list with one instructor appended. */
  lemma AssignInAppended(instructors: seq<Instructor>, i: Instructor, j: nat, course: CourseId)
    requires j <= |instructors|
    ensures var all := instructors + [i];
      all[j := AssignCourse(all[j], course)] ==
        if j < |instructors| then instructors[j := AssignCourse(instructors[j], course)] + [i]
        else instructors + [AssignCourse(i, course)]
  {
  }

  /** Looking up the id of an instructor appended to a list finds an earlier
      instructor with that id if there is one, and the appended one otherwise. */
  lemma FindInstructorAppend(instructors: seq<Instructor>, i: Instructor)
    ensures FindInstructor(instructors + [i], i.instructorId) ==
      if FindInstructor(instructors, i.instructorId).Some? then FindInstructor(instructors, i.instructorId)
      else Some(|instructors|)
  {
    var all := instructors + [i];
    assert InstructorIds(all) == InstructorIds(instructors) + [i.instructorId];
    FirstIndexAppend(InstructorIds(instructors), i.instructorId);
  }

  /** The first position of `x` in `ids + [x]`. */
  lemma {:induction false} FirstIndexAppend(ids: seq<string>, x: string)
    ensures Find(ids + [x], x) == if Find(ids, x).Some? then Find(ids, x) else Some(|ids|)
    decreases |ids|
  {
    if ids != [] && ids[0] != x {
      FirstIndexAppend(ids[1..], x);
      assert (ids + [x])[1..] == ids[1..] + [x];
    }
  }

  /** Why the course form gives up. */
  datatype CourseFormError = InstructorNotFound(instructorId: string)

  /** The pieces of the student field, each without surrounding whitespace:
      the form compares every piece in this stripped form. */
  function StripAll(pieces: seq<string>): (r: seq<string>)
    ensures |r| == |pieces|
    ensures forall k | 0 <= k < |pieces| :: r[k] == Strip(pieces[k])
  {
    seq(|pieces|, k requires 0 <= k < |pieces| => Strip(pieces[k]))
  }

  /** The ids of the students the course form enrolls: for each piece in
      input order, the id of the first student whose id is the stripped
      piece; pieces naming no student are skipped. */
  function Enrollment(students: seq<Student>, pieces: seq<string>): (ids: seq<StudentId>)
    ensures ids == Filter(StripAll(pieces), (id: StudentId) => id in StudentIds(students))
    decreases |pieces|
  {
    if pieces == [] then []
    else
      var rest := Enrollment(students, pieces[1..]);
      assert StripAll(pieces) == [Strip(pieces[0])] + StripAll(pieces[1..]);
      match FindStudent(students, Strip(pieces[0]))
      case None => rest
      case Some(j) => [students[j].studentId] + rest
  }

  /** How many of the pieces name, once stripped, student `j` as the first
      student with that id. */
  function MatchCount(students: seq<Student>, pieces: seq<string>, j: nat): nat
    decreases |pieces|
  {
    if pieces == [] then 0
    else (if FindStudent(students, Strip(pieces[0])) == Some(j) then 1 else 0) + MatchCount(students, pieces[1..], j)
  }

  /** `n` copies of `x`. */
  function Repeat<T>(x: T, n: nat): (r: seq<T>)
    ensures |r| == n && forall k | 0 <= k < n :: r[k] == x
  {
    seq(n, _ => x)
  }

  /** Registers the course with the first student whose id is the stripped
      piece; changes nothing when no student has that id. */
  function RegisterPiece(students: seq<Student>, piece: string, course: CourseId): (r: seq<Student>)
    ensures |r| == |students| && StudentIds(r) == StudentIds(students)
    ensures forall j | 0 <= j < |students| ::
      r[j] == if FindStudent(students, Strip(piece)) == Some(j) then RegisterCourse(students[j], course) else students[j]
  {
    match FindStudent(students, Strip(piece))
    case None => students
    case Some(j) => students[j := RegisterCourse(students[j], course)]
  }

  /** The loop of the course form over the pieces, registering the course
      with each matched student in turn. */
  function RegisterPieces(students: seq<Student>, pieces: seq<string>, course: CourseId): (r: seq<Student>)
    ensures |r| == |students| && StudentIds(r) == StudentIds(students)
    decreases |pieces|
  {
    if pieces == [] then students
    else RegisterPieces(RegisterPiece(students, pieces[0], course), pieces[1..], course)
  }

  lemma AppendRepeat<T>(xs: seq<T>, x: T, n: nat)
    ensures xs + [x] + Repeat(x, n) == xs + Repeat(x, n + 1)
  {
    assert [x] + Repeat(x, n) == Repeat(x, n + 1);
  }

  /** After the loop, every student holds its earlier courses followed by the
      new course once per piece that named it; ids and people are unchanged. */
  lemma {:induction false} RegisterPiecesEffect(students: seq<Student>, pieces: seq<string>, course: CourseId)
    ensures forall j | 0 <= j < |students| ::
      RegisterPieces(students, pieces, course)[j] ==
        students[j].(registeredCourses := students[j].registeredCourses + Repeat(course, MatchCount(students, pieces, j)))
    decreases |pieces|
  {
    if pieces != [] {
      var s1 := RegisterPiece(students, pieces[0], course);
      var r := RegisterPieces(students, pieces, course);
      assert r == RegisterPieces(s1, pieces[1..], course);
      RegisterPiecesEffect(s1, pieces[1..], course);
      MatchCountSameIds(s1, students, pieces[1..]);
      forall j | 0 <= j < |students|
        ensures r[j] == students[j].(registeredCourses := students[j].registeredCourses + Repeat(course, MatchCount(students, pieces, j)))
      {
        var n := MatchCount(students, pieces[1..], j);
        assert r[j] == s1[j].(registeredCourses := s1[j].registeredCourses + Repeat(course, n));
        var hit := FindStudent(students, Strip(pieces[0])) == Some(j);
        assert MatchCount(students, pieces, j) == (if hit then 1 else 0) + n;
        if hit {
          assert s1[j].registeredCourses == students[j].registeredCourses + [course];
          AppendRepeat(students[j].registeredCourses, course, n);
        } else {
          assert s1[j] == students[j];
          assert students[j].registeredCourses + [] == students[j].registeredCourses;
        }
      }
    }
  }

  /** Matching depends on the ids only. */
  lemma {:induction false} MatchCountSameIds(a: seq<Student>, b: seq<Student>, pieces: seq<string>)
    requires StudentIds(a) == StudentIds(b)
    ensures forall j: nat :: MatchCount(a, pieces, j) == MatchCount(b, pieces, j)
    decreases |pieces|
  {
    if pieces != [] {
      MatchCountSameIds(a, b, pieces[1..]);
      assert FindStudent(a, Strip(pieces[0])) == FindStudent(b, Strip(pieces[0]));
    }
  }

  /** What the course form produces: the new lists, and the `Course` object
      the handler builds and then drops (only its plain fields reach the list). */
  datatype CourseAdded = CourseAdded(repo: Repository, built: Course)

  /** `addCourse`: with no instructor of the entered id nothing changes.
      Otherwise the student text is split on ',', each stripped piece that
      names a student registers the course with the first such student, and a
      dictionary entry holding the raw form text, including the unstripped
      pieces, is appended. The instructor is not assigned the course. */
  function AddCourseRecord(repo: Repository, courseId: CourseId, courseName: string, instructorText: string,
                           studentsText: string): (r: Result<CourseAdded, CourseFormError>)
    ensures r.Err? <==> forall k | 0 <= k < |repo.instructors| :: repo.instructors[k].instructorId != instructorText
    ensures r.Err? ==> r.error == InstructorNotFound(instructorText)
    ensures r.Ok? ==>
      var pieces := Split(studentsText, ',');
      && r.value.repo.instructors == repo.instructors
      && r.value.repo.courses == repo.courses + [FormCourse(courseId, courseName, instructorText, pieces)]
      && |r.value.repo.students| == |repo.students|
      && (forall j | 0 <= j < |repo.students| ::
            r.value.repo.students[j] == repo.students[j].(registeredCourses :=
              repo.students[j].registeredCourses + Repeat(courseId, MatchCount(repo.students, pieces, j))))
      && r.value.built.courseId == courseId && r.value.built.courseName == courseName
      && r.value.built.instructor == Some(instructorText)
      && r.value.built.enrolledStudents == Filter(StripAll(pieces), (id: StudentId) => id in StudentIds(repo.students))
  {
    match FindInstructor(repo.instructors, instructorText)
    case None => Err(InstructorNotFound(instructorText))
    case Some(k) =>
      var pieces := Split(studentsText, ',');
      var enrolled := Enrollment(repo.students, pieces);
      var built := NewCourse(courseId, courseName, Some(repo.instructors[k].instructorId), Some(enrolled));
      RegisterPiecesEffect(repo.students, pieces, courseId);
      var students := RegisterPieces(repo.students, pieces, courseId);
      Ok(CourseAdded(Repository(students, repo.instructors, repo.courses + [FormCourse(courseId, courseName, instructorText, pieces)]), built))
  }
}
