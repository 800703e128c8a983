# Student, instructor and course records in Dafny

This project models the core of a small school record keeper. The record keeper has two layers:

- **The entity layer (OOP.py).** `Person` validates an age and an e-mail address. `Student`, `Instructor` and `Course` build on it. Three operations only ever append: `assign_course`, `add_student` and `register_course`.
- **The data logic of the main window (`MainWindow` in PyQTdocumented.py).** This covers:
  - the three lists the window owns;
  - the add forms for students, instructors and courses;
  - search, edit and delete of a record;
  - saving the lists as flat records;
  - loading flat records and re-linking them by id;
  - the CSV export.

Every handler is a pure function over a `Repository` of three sequences. A handler that shows an error box and returns, or that raises, yields `Err`. A handler that changes the lists yields the new repository.

Modules, in dependency order:

- `Wrappers` (wrappers.dfy): `Option` and `Result`.
- `Text` (text.dfy): the pieces of Python's string runtime the code relies on. These are the character classes, `lower`, `in` on strings, `strip`, `split`, `join`, `int` on a digit string, and `str` on a natural number. Each comes with the lemmas that tie it to a declarative reading: `in` holds iff the term occurs at some position, split and join invert each other, and a numeral reads back as its number.
- `Seqs` (seqs.dfy): list comprehensions with a condition (`Filter`) and first-match lookups (`FirstIndex`), with their order, count and membership facts.
- `EmailRules` (email_rules.dfy): the two e-mail regular expressions.
  - Each pattern is written twice: as a declarative predicate with existential split points, and as a small automaton that the code runs.
  - A lemma proves that the two agree.
  - The constructor's pattern is `^[\w\.-]+@[\w\.-]+\.\w+$` under `re.match`. Python's `$` also matches before one final line feed.
  - The edit dialog's pattern is `[^@]+@[^@]+\.[^@]+` under `re.match`. This is anchored at the start only, so a matching prefix is enough.
- `Entities` (entities.dfy): the classes of OOP.py. Objects are values here, and a link is the linked record's id.
- `Session` (session.dfy): the window's lists and the handlers that change or search them.
- `Persistence` (persistence.dfy): `saveData`, `loadData` and `export_to_csv`, without the files.

## Model

| member | source | states |
|---|---|---|
| `Entities.ValidateAge` | OOP.py:26-31 | An age is accepted exactly when it is an integer of at least zero. It is then returned unchanged; otherwise the result is an `InvalidAge` error. |
| `Entities.ValidateEmail` | OOP.py:17-23 | An address is returned unchanged exactly when it has the shape `^[\w\.-]+@[\w\.-]+\.\w+$`, with `$` allowing one final line feed. Otherwise the result is an `InvalidEmail` error. |
| `Entities.EmailExamples` | OOP.py:18-21 | "a@b.com" is accepted. "a@b" and "a.b.com" are rejected. "a@b.com" followed by one line feed is accepted unchanged. |
| `Entities.NewPerson` | OOP.py:7-10 | A person exists exactly when both the age and the e-mail pass. It stores the name, the age and the e-mail as given. The age is checked first, so a bad age is reported even when the e-mail is bad too. |
| `Entities.NewInstructor` | OOP.py:46-50 | An instructor exists exactly when its person part validates. It carries the id, and the given course list or `[]` when none is given. |
| `Entities.NewCourse` | OOP.py:56-61 | A course keeps its id, name and instructor. Its student list is the given one, or `[]` when none is given. |
| `Entities.NewStudent` | OOP.py:67-71 | A student exists exactly when its person part validates. It carries the id, and the given course list or `[]` when none is given. |
| `Entities.AssignCourse` | OOP.py:53-54 | The course list grows by one and the earlier entries stay in place. The new last entry is the course, and its count goes up by one, because no duplicate check is made. |
| `Entities.AddStudent` | OOP.py:64-65 | The student list grows by one, earlier entries stay, and the new last entry is the student. Id, name and instructor are unchanged. |
| `Entities.RegisterCourse` | OOP.py:74-75 | The course list grows by one, earlier entries stay, and the new last entry is the course. The person and the id are unchanged. |
| `EmailRules.AddressAcceptsIffPattern` | OOP.py:19-20 | The automaton the constructor's check runs accepts exactly the strings of the declarative pattern. |
| `EmailRules.LooseAcceptsIffPattern` | PyQTdocumented.py:504 | The automaton the edit dialog's check runs accepts exactly the strings that have a prefix of the shape `[^@]+@[^@]+\.[^@]+`. |
| `Text.ContainsIffOccurs` | PyQTdocumented.py:387-388 | The substring test used by search holds exactly when the term occurs at some position of the text. |
| `Text.Strip` | PyQTdocumented.py:490-491 | The stripped text is the input with whitespace runs cut from both ends. It neither starts nor ends with whitespace, and it is empty exactly when the input is all whitespace. |
| `Text.Split` | PyQTdocumented.py:343 | Splitting on ',' gives at least one piece, and no piece holds a ','. |
| `Text.JoinSplit` | PyQTdocumented.py:343 | Joining the pieces of a split with the separator gives back the original text. |
| `Text.SplitJoin` | PyQTdocumented.py:343 | Splitting a join of separator-free pieces gives back the pieces. |
| `Text.DecimalPositiveIffNonZeroDigit` | PyQTdocumented.py:496 | A digit string reads as a number greater than zero exactly when it has a digit other than '0'. |
| `Text.DecimalRoundTrip` | PyQTdocumented.py:704 | The numeral written for an age reads back as that age. |
| `Seqs.Filter` | PyQTdocumented.py:555 | The comprehension's result is a subsequence of its input, so order is kept. |
| `Seqs.FilterCounts` | PyQTdocumented.py:555 | The comprehension keeps each element that passes as often as it occurs, and drops every other element. |
| `Seqs.FirstIndex` | PyQTdocumented.py:357 | `next(...)` finds the first element that passes, and finds none exactly when no element passes. |
| `Session.FindStudent` | PyQTdocumented.py:486 | The lookup by id yields the first student with that id, or none when no student has it. |
| `Session.FindInstructor` | PyQTdocumented.py:511 | The lookup by id yields the first instructor with that id, or none when no instructor has it. |
| `Session.AllRecords` | PyQTdocumented.py:386-422 | The record listing holds every student, then every instructor, then every course entry, each group in list order, one entry per record. |
| `Session.Search` | PyQTdocumented.py:382-422 | The hits are the matching records, in listing order and grouped by kind. Each hit appears as often as it does in its list. A record is a hit exactly when it is listed and the lower-cased term is in its lower-cased name or id. |
| `Session.SearchEmptyTermListsAll` | PyQTdocumented.py:382-388 | Searching for the empty term lists every record. |
| `Session.SearchFindsSubstrings` | PyQTdocumented.py:386-388 | A record is found exactly when the lower-cased term occurs at some position of its lower-cased name or its lower-cased id. |
| `Session.SearchAsWritten` | PyQTdocumented.py:397-422 | The handler as written raises in two cases: when an instructor matches while a course entry exists, and when any entry is a course object. Otherwise its hits are those of `Search`. |
| `Session.SearchAsWrittenFailsOnInstructor` | PyQTdocumented.py:410 | Take one instructor, one course entry and the empty term. The handler as written raises, while the intended search lists both records. |
| `Session.Delete` | PyQTdocumented.py:554-557 | Deleting a student id removes exactly the students with that id, keeps the rest in order, and changes no other list. Deleting an instructor id works the same way. A course is never deleted. |
| `Session.DeleteMissingIsNoOp` | PyQTdocumented.py:554-557 | Deleting an id that no record of that kind carries changes nothing. |
| `Session.EditPerson` | PyQTdocumented.py:489-509 | Name, age and e-mail are checked in that order, and the edit completes exactly when all three are acceptable. The first rejected field stops the edit, and the fields accepted before it keep their new values. The name is stored stripped and the age as the number it reads as. |
| `Session.EditChecksMeanAcceptance` | PyQTdocumented.py:490-504 | The edit's checks hold exactly when the declarative acceptance conditions do. A name must hold a non-space character. An age must be a non-empty string of digits, not all '0'. An e-mail must have a prefix of the loose shape. |
| `Session.Edit` | PyQTdocumented.py:485-534 | The edit as intended: only the first record of the given kind with the id is edited, and only its person fields change; a missing id changes nothing, and a course cannot be edited. |
| `Session.EditAsWritten` | PyQTdocumented.py:485-532 | The edit as written fails exactly when no student or no instructor has the id, with the error of that branch, and otherwise has the outcome of the intended edit. |
| `Session.EditAsWrittenFailsOnMissingId` | PyQTdocumented.py:485-532 | In the window as it starts, editing any student or instructor id fails as written, while the intended edit leaves the lists unchanged. |
| `Session.InitialSearchSucceeds` | PyQTdocumented.py:57-61 | In the window as it starts, with only the three catalogue courses, the search as written never fails and returns the intended listing. |
| `Session.EditAgeStricterThanValidateAge` | PyQTdocumented.py:496-497 | Every age the edit dialog accepts also passes `validate_age`. Age 0 passes `validate_age` but the edit dialog rejects it. |
| `Session.EditEmailLooserThanValidateEmail` | PyQTdocumented.py:504-505 | "a@b.c@" passes the edit dialog's check but fails the constructor's check. |
| `Session.AddStudentRecord` | PyQTdocumented.py:282-289 | The form adds a student exactly when the fields validate, and otherwise reports the constructor's error. The new student is appended with no registered course, and the other lists are unchanged. |
| `Session.FindCourse` | PyQTdocumented.py:316-317 | The selected course is the first entry with the selected id. There is none when nothing is selected or no entry has that id. |
| `Session.AddInstructorRecord` | PyQTdocumented.py:306-322 | The form adds an instructor exactly when the fields validate, and appends it. When an entry has the selected course id, the first instructor with the new id is assigned the course: that is the new instructor unless an earlier one shares the id. Otherwise nothing is assigned. |
| `Session.FindInstructorAppend` | PyQTdocumented.py:318-321 | Looking up the new instructor's id after the append finds an earlier instructor with that id if one exists, and the new one otherwise. |
| `Session.Enrollment` | PyQTdocumented.py:355-359 | The students the form enrolls are the stripped pieces that name a student, in input order; unknown pieces are skipped. |
| `Session.RegisterPiece` | PyQTdocumented.py:356-360 | One piece appends the course to the first student whose id is the stripped piece, leaves every other student unchanged, and keeps the ids. |
| `Session.RegisterPieces` | PyQTdocumented.py:355-360 | The loop over the pieces keeps the number of students and every student id in place. |
| `Session.RegisterPiecesEffect` | PyQTdocumented.py:355-360 | After the loop over the pieces, each student holds its earlier courses plus the new course id once per piece that named it. |
| `Session.AddCourseRecord` | PyQTdocumented.py:340-368 | With no instructor of the entered id, the form reports an error and changes nothing. Otherwise: each piece that names a student registers the course; the entry appended holds the raw text and the unstripped pieces; the instructor is not assigned; and the course object built names the enrolled students. |
| `Persistence.SaveCourse` | PyQTdocumented.py:598-604 | A saved course keeps the entry's id and name. A dictionary entry is saved with no instructor and no students, because it has neither key. |
| `Persistence.Save` | PyQTdocumented.py:582-604 | There is one record per student, instructor and course entry, in list order. A student record holds all of the student. An instructor record holds its id, name and courses. A course record is the entry saved as `SaveCourse` says; a dictionary entry has no instructor id and no students. |
| `Persistence.SavedStudentsRestore` | PyQTdocumented.py:582-589 | Rebuilding students from the saved student records gives back exactly the student list. |
| `Persistence.SaveForgetsInstructorContact` | PyQTdocumented.py:591-596 | Two repositories whose instructors differ only in age and e-mail save to the same data. |
| `Persistence.EnrollIdsKeepsIds` | PyQTdocumented.py:664-668 | The enrolment loop keeps every student's id in place. |
| `Persistence.EnrollIdsCourse` | PyQTdocumented.py:664-667 | The enrolment loop appends to the course the ids that name a student, in order; unknown ids are skipped. |
| `Persistence.EnrollIdsStudents` | PyQTdocumented.py:664-668 | The enrolment loop gives each student the course once per id that names it first. |
| `Persistence.LoadCourseKeepsIds` | PyQTdocumented.py:654-672 | One course record leaves every student and instructor id in place. |
| `Persistence.LoadCourseStudents` | PyQTdocumented.py:664-668 | One course record registers its course with the students its enrolment ids resolve to. |
| `Persistence.LoadCourseInstructors` | PyQTdocumented.py:655-672 | One course record appends its course id to the first instructor whose id is the record's instructor id and leaves every other instructor unchanged. |
| `Persistence.LoadCourseCourse` | PyQTdocumented.py:654-670 | One course record appends the course object it resolves to. |
| `Persistence.LoadCoursesStudents` | PyQTdocumented.py:654-668 | After all course records, each student holds, per record in order, that course once for each enrolment id naming it first. |
| `Persistence.LoadCoursesInstructors` | PyQTdocumented.py:654-672 | After all course records, each instructor holds, in order, the courses whose instructor id names it first. |
| `Persistence.LoadCoursesCourses` | PyQTdocumented.py:654-670 | After all course records, the list holds one course object per record, in order. |
| `Persistence.LoadedAll` | PyQTdocumented.py:654-670 | The course objects appended by the loop are, one per record in order, the objects each record resolves to. |
| `Persistence.Load` | PyQTdocumented.py:632-672 | Loading starts from empty lists. Each person is built with an empty course list. Each course's instructor is the first instructor with the record's id, or none. A course's students are its `enrolled_students` plus the resolved enrolment ids. The students and instructors receive exactly the links that resolve to them. |
| `Persistence.LoadLinksStudentsBothWays` | PyQTdocumented.py:664-668 | An enrolment id that names a student appears in the course. The first student with that id lists the course. |
| `Persistence.LoadLinksInstructorBothWays` | PyQTdocumented.py:655-672 | An instructor id that names an instructor becomes the course's instructor. The first instructor with that id lists the course. |
| `Persistence.UnknownIdsCountNothing` | PyQTdocumented.py:664-666 | Enrolment ids that name no student register nothing with anyone. |
| `Persistence.CourseRow` | PyQTdocumented.py:725-754 | A course row is eight cells: the tag, id, name, two empty cells, instructor, name again, and students. A dictionary entry has empty instructor and student cells. A loaded course shows the name of its instructor, or nothing, and the names of its students joined by ", ". |
| `Persistence.CsvRows` | PyQTdocumented.py:696-754 | The export is the header, then one row per student, instructor and course entry, in list order, every row eight cells wide. A person row holds the kind, id, name, age numeral and e-mail followed by three empty cells. A course row is that entry's course row. |
| `Persistence.CsvAgeReadsBack` | PyQTdocumented.py:700-722 | The Age cell of every person row is a numeral that reads back as that person's age. |

## Left out

- The Qt widgets, dialogs and message boxes are not modelled, and neither are `updateRecordDisplay`, `updateCourseDropdown` or the widgets the forms read from. The handlers take the form's text as parameters. A cancelled input dialog is `None`.
- The mapping from a selected table row to a record kind and id (PyQTdocumented.py:482-483 and 551-552) is not modelled. Edit and delete take the kind and id directly. Note that this code reads the kind from column 4 and the id from column 0. That fits the instructor rows of the default table but not its student rows.
- File I/O is not modelled: `open`, `json.dump`, `json.load`, `csv.writer`, the file dialogs and `Person.save_data`/`Person.load_data` (OOP.py:34-43). Save yields records, load takes already-parsed records, and the export yields rows of cells.
- `Person.introduce` only prints.
- A save followed by a load is not a round trip, and no lemma claims one. Save writes `enrolled_students` but load reads `enrolled_students_ids`. Save also drops instructor age and e-mail.
- Persistence.Load: the constructors take `_email=` and possibly a missing age (PyQTdocumented.py:641, 650), which Python rejects. The model takes each parsed person record as an already validated `Person`.
- Persistence.Save: a course object from a load is subscripted (PyQTdocumented.py:600) and raises; the model saves it from its fields. The same holds for `addInstructor` (line 317), where the model reads the entry's id. `SearchAsWritten` keeps this failure.
- Persistence.Save: the code saves `course.course_id` for each entry of a person's course list (lines 588, 595). The course form registers plain id strings (line 360), and `addInstructor` assigns the course entry itself, a dictionary (line 320). Since the three catalogue dictionaries (lines 57-61) are there from the start, any save after adding an instructor with a course raises. The model keeps ids in every course list and does not model this attribute error.
- Persistence.CourseRow: the code names the instructor and students through the object links. The model looks them up by id in the current lists, so a deleted student drops out of the Students cell. A loaded course's `enrolled_students` begins with the raw list of the file (line 661); reading `student.name` from such an entry (line 743) raises, so as written the export fails for a loaded course with `enrolled_students` in its record. The model does not model that failure and treats every entry as an id.
- The age text of the add forms goes through `int()` (lines 288, 313). The model takes the resulting value as an `AgeArg`, either a whole number or not one, and does not model the `ValueError` of `int()` itself.
- Python's `bool` is an `int`, so `validate_age(True)` passes. The model has no separate booleans.
- Character classes are ASCII only: `\w`, `str.isspace`, `str.isdigit` and `str.lower` are approximated on the ASCII range. Every other character counts as a plain character.

## Findings

| source | as written | input that shows it | evidently intended | confidence | as-written member | corrected member |
|---|---|---|---|---|---|---|
| PyQTdocumented.py:503, 522 | In `editRecord` the e-mail dialog of the student branch and the age check of the instructor branch sit outside the `if student:` and `if instructor:` guards. For an id no record has, `student._email` is read from `None` (`AttributeError`), and `ok` and `booll` are read before any assignment (`UnboundLocalError`). | The starting window, which has no person, with kind Student or Instructor and any id. | An id no record has changes nothing. | high; not executed | `Session.EditAsWritten`, `Session.EditAsWrittenFailsOnMissingId` | `Session.Edit` |
| PyQTdocumented.py:410 | The row for a matching instructor tests `c['course_id'] in instructor.courses`, but `Instructor` has no `courses` attribute (it has `assigned_courses`), so the search raises `AttributeError`. | One instructor "Ann" with id "I1", one course entry, and the empty search term. | Every matching record is listed, the instructor included. | high; not executed | `Session.SearchAsWritten`, `Session.SearchAsWrittenFailsOnInstructor` | `Session.Search`, with `Session.SearchFindsSubstrings` and `Session.SearchEmptyTermListsAll` |
