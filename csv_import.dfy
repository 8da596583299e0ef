/**
 * The row handling of the two CSV imports in app/admin/routes.py,
 * `import_students_csv` and `import_classes_csv`. A row arrives as the text
 * of its cells (`str(cell)`; an empty cell reads "nan"), with None for an
 * optional column the file does not have. Rows are handled in order, and the
 * session autoflushes, so a row sees the rows imported before it.
 *
 * The code filters "nan" out of the date and teacher cells but not out of
 * the other text cells, so an empty ID number, name, email, contact,
 * schedule or academic year is taken as the text "nan". Every operation here
 * takes the cell reading: `AsWritten` is the code's, `AsMeant` also takes
 * "nan" as blank. Every lemma holds for both.
 */
module AdminImports {
  import opened Wrappers
  import opened Text
  import opened Dates
  import opened Models
  import opened Queries
  import opened AdminForms

  // ---- Cell normalisation ----

  /** How the text of a cell is read: as the code does, or with the "nan" of an empty cell taken as blank. */
  datatype CellReading = AsWritten | AsMeant

  /**
   * A stripped cell text that counts as empty: "" as written; as meant, also
   * "nan", which is exactly what `str` gives for every cell pandas reads as
   * missing. A cell written "Nan" or "NAN" is not missing and keeps its text.
   */
  predicate EmptyText(reading: CellReading, x: string) {
    x == "" || (reading == AsMeant && x == "nan")
  }

  /** `x = str(cell).strip()` then `x if x else None` (or `if x == '': x = None`); None for an absent column. */
  function TextOrNone(reading: CellReading, cell: Option<string>): (r: Option<string>)
  {
    if cell.None? || EmptyText(reading, Strip(cell.value)) then None else Some(Strip(cell.value))
  }

  /**
   * An optional text cell gives nothing exactly when the column is absent or
   * the cell is all whitespace, or, as meant, reads "nan". Otherwise it gives
   * the cell without its leading and trailing whitespace, which is not empty.
   */
  lemma TextOrNoneMeaning(reading: CellReading, cell: Option<string>)
    ensures var r := TextOrNone(reading, cell);
      && (r.None? <==> cell.None? || (forall k :: 0 <= k < |cell.value| ==> IsSpace(cell.value[k]))
                       || (reading == AsMeant && Strip(cell.value) == "nan"))
      && (r.Some? ==>
            var i := LeadingSpaces(cell.value);
            && 0 < |r.value| && i + |r.value| <= |cell.value| && r.value == cell.value[i..i + |r.value|]
            && (forall k :: 0 <= k < i ==> IsSpace(cell.value[k]))
            && (forall k :: i + |r.value| <= k < |cell.value| ==> IsSpace(cell.value[k]))
            && !IsSpace(r.value[0]) && !IsSpace(r.value[|r.value| - 1]))
  {
    if cell.Some? {
      StripMeaning(cell.value);
      StripEmptyIffAllSpace(cell.value);
    }
  }

  /** As written, an empty optional cell keeps the text "nan"; as meant, it gives nothing. */
  lemma EmptyCellReadsNan()
    ensures TextOrNone(AsWritten, Some("nan")) == Some("nan")
    ensures TextOrNone(AsMeant, Some("nan")) == None
  {
    StripUnchanged("nan");
    LowerUnchanged("nan");
  }

  const TrueWords: seq<string> := ["true", "1", "yes"]

  /** `str(row.get(col, default)).strip().lower() in ['true', '1', 'yes']`. */
  predicate Flag(cell: Option<string>, default: string) {
    Lower(Strip(if cell.Some? then cell.value else default)) in TrueWords
  }

  /** A flag is set exactly by `true`, `1` or `yes` in any case, with any surrounding whitespace. */
  lemma FlagRules(cell: string, default: string)
    ensures Flag(Some(cell), default) <==> exists i :: 0 <= i < |TrueWords| && EqualsIgnoreCase(Strip(cell), TrueWords[i])
  {
    LowerUnchanged("true");
    LowerUnchanged("1");
    LowerUnchanged("yes");
    var w := Lower(Strip(cell));
    if w in TrueWords {
      var i :| 0 <= i < |TrueWords| && TrueWords[i] == w;
      assert EqualsIgnoreCase(Strip(cell), TrueWords[i]);
    }
  }

  /** An absent `is_active` column means active. */
  lemma ActiveByDefault()
    ensures Flag(None, "True")
  {
    StripUnchanged("True");
    assert Lower("True") == "true";
  }

  /** An absent `is_in_arrears` column means not in arrears. */
  lemma NotInArrearsByDefault()
    ensures !Flag(None, "False")
  {
    var stripped := Strip("False");
    assert stripped == "False" by { StripUnchanged("False"); }
    var lowered := Lower(stripped);
    assert |lowered| == 5;
    assert forall k :: 0 <= k < |TrueWords| ==> |TrueWords[k]| != 5;
  }

  /** An empty cell, which reads "nan", clears the flag whatever the default. */
  lemma EmptyCellClearsFlag(default: string)
    ensures !Flag(Some("nan"), default)
  {
    StripUnchanged("nan");
    LowerUnchanged("nan");
  }

  datatype DateCell = NoDate | ValidDate(date: Civil) | BadDate

  /**
   * A date cell: absent, blank or "nan" (any case) gives no date; otherwise
   * `%Y-%m-%d` is tried, then `%d/%m/%Y`.
   */
  function ReadDateCell(cell: Option<string>): (r: DateCell)
    ensures r.ValidDate? ==> ValidCivil(r.date)
  {
    if cell.None? || Strip(cell.value) == "" || Lower(Strip(cell.value)) == "nan" then NoDate
    else
      match ParseEitherFormat(Strip(cell.value))
      case Some(c) => ValidDate(c)
      case None => BadDate
  }

  /**
   * A date cell gives no date exactly when absent, blank or "nan" in any
   * case; otherwise its date is the `%Y-%m-%d` reading of the stripped text,
   * or failing that the `%d/%m/%Y` reading, and it is bad when neither reads.
   */
  lemma ReadDateCellRules(cell: Option<string>)
    ensures var r := ReadDateCell(cell);
      && (r == NoDate <==> cell.None? || Strip(cell.value) == "" || EqualsIgnoreCase(Strip(cell.value), "nan"))
      && (r.ValidDate? ==> ParseYmd(Strip(cell.value)) == Some(r.date)
                           || (ParseYmd(Strip(cell.value)).None? && ParseDmy(Strip(cell.value)) == Some(r.date)))
      && (r == BadDate ==> ParseYmd(Strip(cell.value)).None? && ParseDmy(Strip(cell.value)).None?)
  {
    LowerUnchanged("nan");
  }

  function DateOf(d: DateCell): (r: Option<Date>)
    requires d.ValidDate? ==> ValidCivil(d.date)
    ensures r.Some? <==> d.ValidDate?
  {
    if d.ValidDate? then Some(ToDate(d.date)) else None
  }

  // ---- import_students_csv ----

  /** A data row of the student file. */
  datatype StudentRow = StudentRow(
    idNumber: string,
    firstName: string,
    lastName: string,
    email: Option<string>,
    contact: Option<string>,
    dateOfBirth: Option<string>,
    isActive: Option<string>,
    isInArrears: Option<string>)

  datatype StudentSkip = MissingField | DuplicateIdNumber | DuplicateEmail | BadDateOfBirth

  datatype StudentOutcome = StudentImported(student: Student) | StudentSkipped(reason: StudentSkip)

  /** `Student.query.filter_by(student_id_number=...)`: exact comparison. */
  predicate IdNumberInUse(students: seq<Student>, idNumber: string) {
    exists s :: s in students && s.studentIdNumber == idNumber
  }

  /** `Student.query.filter(Student.email.ilike(email))`: students without an email never match. */
  predicate EmailInUse(students: seq<Student>, email: string) {
    exists s :: s in students && s.email.Some? && ILike(s.email.value, email)
  }

  /**
   * One student row against the students stored so far, with `id` the key
   * the new row would receive.
   */
  function ClassifyStudentRow(reading: CellReading, students: seq<Student>, id: int, row: StudentRow): StudentOutcome {
    var idNumber, first, last := Strip(row.idNumber), Strip(row.firstName), Strip(row.lastName);
    if EmptyText(reading, idNumber) || EmptyText(reading, first) || EmptyText(reading, last) then StudentSkipped(MissingField)
    else if IdNumberInUse(students, idNumber) then StudentSkipped(DuplicateIdNumber)
    else
      var email := TextOrNone(reading, row.email);
      if email.Some? && EmailInUse(students, email.value) then StudentSkipped(DuplicateEmail)
      else
        var dob := ReadDateCell(row.dateOfBirth);
        if dob == BadDate then StudentSkipped(BadDateOfBirth)
        else StudentImported(Student(id, idNumber, first, last, email, TextOrNone(reading, row.contact), DateOf(dob),
                                     Flag(row.isActive, "True"), Flag(row.isInArrears, "False")))
  }

  /**
   * The checks in order: a blank ID number or name skips the row; then an ID
   * number already stored; then an email some student already has (ILIKE);
   * then a date of birth that does not read.
   */
  lemma StudentRowSkips(reading: CellReading, students: seq<Student>, id: int, row: StudentRow)
    ensures var r := ClassifyStudentRow(reading, students, id, row);
      var blank := EmptyText(reading, Strip(row.idNumber)) || EmptyText(reading, Strip(row.firstName)) || EmptyText(reading, Strip(row.lastName));
      var idTaken := IdNumberInUse(students, Strip(row.idNumber));
      var emailTaken := TextOrNone(reading, row.email).Some? && EmailInUse(students, TextOrNone(reading, row.email).value);
      && (r == StudentSkipped(MissingField) <==> blank)
      && (r == StudentSkipped(DuplicateIdNumber) <==> !blank && idTaken)
      && (r == StudentSkipped(DuplicateEmail) <==> !blank && !idTaken && emailTaken)
      && (r == StudentSkipped(BadDateOfBirth) <==> !blank && !idTaken && !emailTaken && ReadDateCell(row.dateOfBirth) == BadDate)
  {
  }

  /**
   * An imported row becomes a student with the next key, the stripped ID
   * number and names, the optional text columns blank-to-None, the date of
   * birth read from its cell and both flags; its ID number and email are not
   * in use.
   */
  lemma StudentRowImported(reading: CellReading, students: seq<Student>, id: int, row: StudentRow)
    ensures var r := ClassifyStudentRow(reading, students, id, row);
      r.StudentImported? ==>
      && r.student.id == id
      && r.student.studentIdNumber == Strip(row.idNumber) && !EmptyText(reading, r.student.studentIdNumber)
      && r.student.firstName == Strip(row.firstName) && !EmptyText(reading, r.student.firstName)
      && r.student.lastName == Strip(row.lastName) && !EmptyText(reading, r.student.lastName)
      && !IdNumberInUse(students, r.student.studentIdNumber)
      && r.student.email == TextOrNone(reading, row.email)
      && (r.student.email.Some? ==> !EmailInUse(students, r.student.email.value))
      && r.student.contactNumber == TextOrNone(reading, row.contact)
      && ReadDateCell(row.dateOfBirth) != BadDate
      && r.student.dateOfBirth == DateOf(ReadDateCell(row.dateOfBirth))
      && r.student.isActive == Flag(row.isActive, "True")
      && r.student.isInArrears == Flag(row.isInArrears, "False")
  {
  }

  /**
   * As written, a row with an empty ID number cell is imported with the ID
   * number "nan"; as meant, it is skipped for a missing field.
   */
  lemma EmptyIdNumberAsWritten()
    ensures var row := StudentRow("nan", "Ann", "Lee", None, None, None, None, None);
      && ClassifyStudentRow(AsWritten, [], 1, row).StudentImported?
      && ClassifyStudentRow(AsWritten, [], 1, row).student.studentIdNumber == "nan"
      && ClassifyStudentRow(AsMeant, [], 1, row) == StudentSkipped(MissingField)
  {
    StripUnchanged("nan");
    StripUnchanged("Ann");
    StripUnchanged("Lee");
    LowerUnchanged("nan");
  }

  /** The import's running state: the students so far, the next key, the counters and the reported rows. */
  datatype StudentImport = StudentImport(students: seq<Student>, nextId: int, imported: nat, skipped: nat, issues: seq<(nat, StudentSkip)>)

  /** One row, the `index`-th; an issue names the row by its position plus 2, `index + 2`, as the view reports it. */
  function StudentStep(reading: CellReading, st: StudentImport, index: nat, row: StudentRow): StudentImport {
    match ClassifyStudentRow(reading, st.students, st.nextId, row)
    case StudentImported(x) => st.(students := st.students + [x], nextId := st.nextId + 1, imported := st.imported + 1)
    case StudentSkipped(reason) => st.(skipped := st.skipped + 1, issues := st.issues + [(index + 2, reason)])
  }

  /** The state after the rows, one after the other. */
  function ImportStudentRows(reading: CellReading, students: seq<Student>, nextId: int, rows: seq<StudentRow>): StudentImport
    decreases |rows|
  {
    if |rows| == 0 then StudentImport(students, nextId, 0, 0, [])
    else StudentStep(reading, ImportStudentRows(reading, students, nextId, rows[..|rows| - 1]), |rows| - 1, rows[|rows| - 1])
  }

  lemma StudentRowsStep(reading: CellReading, students: seq<Student>, nextId: int, rows: seq<StudentRow>, i: nat)
    requires i < |rows|
    ensures ImportStudentRows(reading, students, nextId, rows[..i + 1]) == StudentStep(reading, ImportStudentRows(reading, students, nextId, rows[..i]), i, rows[i])
  {
    assert rows[..i + 1][..i] == rows[..i];
  }

  /**
   * `import_students_csv` over the rows of a file that has the required
   * columns, committing only when a row was imported. `committed` says
   * whether the session was committed.
   */
  method ImportStudentsCsv(reading: CellReading, students: seq<Student>, nextId: int, rows: seq<StudentRow>) returns (result: StudentImport, committed: bool)
    ensures result == ImportStudentRows(reading, students, nextId, rows)
    ensures committed <==> result.imported > 0
  {
    result := StudentImport(students, nextId, 0, 0, []);
    var i := 0;
    while i < |rows|
      invariant 0 <= i <= |rows|
      invariant result == ImportStudentRows(reading, students, nextId, rows[..i])
    {
      StudentRowsStep(reading, students, nextId, rows, i);
      result := StudentStep(reading, result, i, rows[i]);
      i := i + 1;
    }
    assert rows[..i] == rows;
    committed := result.imported > 0;
  }

  /** Student ID numbers are unique (the column is UNIQUE). */
  predicate IdNumbersUnique(s: seq<Student>) {
    forall i, j :: 0 <= i < j < |s| ==> s[i].studentIdNumber != s[j].studentIdNumber
  }

  /** No two students share an email up to case. */
  predicate EmailsDistinct(s: seq<Student>) {
    forall i, j :: 0 <= i < j < |s| && s[i].email.Some? && s[j].email.Some? ==> !EqualsIgnoreCase(s[i].email.value, s[j].email.value)
  }

  /**
   * Every row is either imported or skipped, each skip is reported once,
   * the stored students are kept in front, and with nothing imported
   * nothing changes.
   */
  lemma {:induction false} StudentImportCounts(reading: CellReading, students: seq<Student>, nextId: int, rows: seq<StudentRow>)
    ensures var r := ImportStudentRows(reading, students, nextId, rows);
      && r.imported + r.skipped == |rows|
      && |r.issues| == r.skipped
      && |r.students| == |students| + r.imported
      && r.students[..|students|] == students
      && r.nextId == nextId + r.imported
      && (r.imported == 0 ==> r.students == students)
      && (forall k :: 0 <= k < |r.issues| ==> 2 <= r.issues[k].0 <= |rows| + 1)
    decreases |rows|
  {
    if |rows| > 0 {
      StudentImportCounts(reading, students, nextId, rows[..|rows| - 1]);
      var prev := ImportStudentRows(reading, students, nextId, rows[..|rows| - 1]);
      var r := ImportStudentRows(reading, students, nextId, rows);
      if ClassifyStudentRow(reading, prev.students, prev.nextId, rows[|rows| - 1]).StudentImported? {
        assert r.students[..|students|] == prev.students[..|students|];
      }
    }
  }

  /**
   * As written, once one student is stored with the email "nan" of an empty
   * cell, every later row with an empty email cell is refused as a duplicate.
   * As meant, an empty email cell gives no email and is never looked up.
   */
  lemma EmptyEmailsClashAsWritten(students: seq<Student>, id: int, row: StudentRow, earlier: Student)
    requires earlier in students && earlier.email == Some("nan")
    requires row.email == Some("nan")
    requires !(EmptyText(AsWritten, Strip(row.idNumber)) || EmptyText(AsWritten, Strip(row.firstName)) || EmptyText(AsWritten, Strip(row.lastName)))
    requires !IdNumberInUse(students, Strip(row.idNumber))
    ensures ClassifyStudentRow(AsWritten, students, id, row) == StudentSkipped(DuplicateEmail)
    ensures TextOrNone(AsMeant, row.email) == None
  {
    EmptyCellReadsNan();
    ILikeCaseVariant("nan", "nan");
  }

  /** Appending a student the row checks let through keeps ID numbers unique and emails distinct. */
  lemma AppendKeepsKeys(s: seq<Student>, x: Student)
    requires IdNumbersUnique(s) && EmailsDistinct(s)
    requires !IdNumberInUse(s, x.studentIdNumber)
    requires x.email.Some? ==> !EmailInUse(s, x.email.value)
    ensures IdNumbersUnique(s + [x]) && EmailsDistinct(s + [x])
  {
    var t := s + [x];
    forall i | 0 <= i < |s| ensures t[i].studentIdNumber != x.studentIdNumber
    {
      assert t[i] in s;
    }
    forall i | 0 <= i < |s| && t[i].email.Some? && x.email.Some?
      ensures !EqualsIgnoreCase(t[i].email.value, x.email.value)
    {
      assert t[i] in s;
      if EqualsIgnoreCase(t[i].email.value, x.email.value) {
        ILikeCaseVariant(t[i].email.value, x.email.value);
      }
    }
  }

  /** The import keeps the table's keys: ID numbers stay unique, and emails distinct up to case. */
  lemma {:induction false} StudentImportKeepsKeys(reading: CellReading, students: seq<Student>, nextId: int, rows: seq<StudentRow>)
    requires IdNumbersUnique(students) && EmailsDistinct(students)
    ensures IdNumbersUnique(ImportStudentRows(reading, students, nextId, rows).students)
    ensures EmailsDistinct(ImportStudentRows(reading, students, nextId, rows).students)
    decreases |rows|
  {
    if |rows| > 0 {
      StudentImportKeepsKeys(reading, students, nextId, rows[..|rows| - 1]);
      StudentStepKeepsKeys(reading, ImportStudentRows(reading, students, nextId, rows[..|rows| - 1]), |rows| - 1, rows[|rows| - 1]);
    }
  }

  lemma StudentStepKeepsKeys(reading: CellReading, st: StudentImport, index: nat, row: StudentRow)
    requires IdNumbersUnique(st.students) && EmailsDistinct(st.students)
    ensures IdNumbersUnique(StudentStep(reading, st, index, row).students) && EmailsDistinct(StudentStep(reading, st, index, row).students)
  {
    var outcome := ClassifyStudentRow(reading, st.students, st.nextId, row);
    if outcome.StudentImported? {
      StudentRowImported(reading, st.students, st.nextId, row);
      AppendKeepsKeys(st.students, outcome.student);
    }
  }

  // ---- import_classes_csv ----

  /** A data row of the class file. */
  datatype ClassRow = ClassRow(
    name: string,
    subject: string,
    teacher: Option<string>,
    schedule: Option<string>,
    academicYear: Option<string>,
    startDate: Option<string>,
    endDate: Option<string>)

  /**
   * The issues a class row can report. `RowError` is the row's own
   * `except Exception` handler ("Error processing row"), reached when a key
   * lookup raises.
   */
  datatype ClassIssue =
    | ClassMissingField | SubjectNotFound | DuplicateClassName | RowError  // the row is skipped
    | TeacherNotFound | BadStartDate | BadEndDate | EndBeforeStart        // the row is imported regardless

  predicate IsSkipIssue(i: ClassIssue) {
    i.ClassMissingField? || i.SubjectNotFound? || i.DuplicateClassName? || i.RowError?
  }

  /** None of the issues skips the row. */
  predicate NoSkipIssue(issues: seq<ClassIssue>) {
    forall k :: 0 <= k < |issues| ==> !IsSkipIssue(issues[k])
  }

  /** The issues end with the one reason the row was skipped. */
  predicate EndsWithOneSkip(issues: seq<ClassIssue>) {
    |issues| > 0 && IsSkipIssue(issues[|issues| - 1]) && NoSkipIssue(issues[..|issues| - 1])
  }

  lemma NoSkipIssueConcat(a: seq<ClassIssue>, b: seq<ClassIssue>)
    requires NoSkipIssue(a) && NoSkipIssue(b)
    ensures NoSkipIssue(a + b)
  {
    forall k | 0 <= k < |a + b| ensures !IsSkipIssue((a + b)[k]) {
      if k < |a| { assert (a + b)[k] == a[k]; } else { assert (a + b)[k] == b[k - |a|]; }
    }
  }

  lemma EndsWithSkip(a: seq<ClassIssue>, x: ClassIssue)
    requires NoSkipIssue(a) && IsSkipIssue(x)
    ensures EndsWithOneSkip(a + [x])
  {
    assert (a + [x])[..|a|] == a;
  }

  /** SQLite binds a Python int as a signed 64-bit INTEGER; `sqlite3` raises OverflowError for any other. */
  predicate FitsSqliteInteger(n: int) {
    -0x8000_0000_0000_0000 <= n < 0x8000_0000_0000_0000
  }

  /** A text `int()` reads as a number SQLite cannot bind, so a lookup by that key raises. */
  predicate KeyOverflows(ident: string) {
    ParseInt(ident).Some? && !FitsSqliteInteger(ParseInt(ident).value)
  }

  /** A lookup by name, then by key: the row found, none, or the OverflowError of binding the key. */
  datatype Lookup<T> = Found(row: T) | NoMatch | BindOverflow

  predicate SubjectNamed(subjects: seq<Subject>, ident: string) {
    exists s :: s in subjects && ILike(s.name, ident)
  }

  predicate SubjectKeyed(subjects: seq<Subject>, ident: string) {
    ParseInt(ident).Some? && exists s :: s in subjects && s.id == ParseInt(ident).value
  }

  /**
   * The subject a row names: by name (ILIKE) first, then by key when `int()`
   * reads the text. A key SQLite cannot bind raises, which is not the
   * ValueError the view catches.
   */
  function FindSubject(subjects: seq<Subject>, ident: string): (r: Lookup<Subject>)
    ensures r.Found? <==> SubjectNamed(subjects, ident) || (!KeyOverflows(ident) && SubjectKeyed(subjects, ident))
    ensures r.BindOverflow? <==> !SubjectNamed(subjects, ident) && KeyOverflows(ident)
    ensures r.Found? ==>
      && r.row in subjects
      && (ILike(r.row.name, ident) || (!SubjectNamed(subjects, ident) && ParseInt(ident) == Some(r.row.id)))
    ensures SubjectNamed(subjects, ident) ==> r.Found? && ILike(r.row.name, ident)
  {
    var byName := First(subjects, (s: Subject) => ILike(s.name, ident));
    if byName.Some? then Found(byName.value)
    else
      var n := ParseInt(ident);
      if n.None? then NoMatch
      else if !FitsSqliteInteger(n.value) then BindOverflow
      else match First(subjects, (s: Subject) => s.id == n.value)
        case Some(x) => Found(x)
        case None => NoMatch
  }

  predicate TeacherMatches(u: User, ident: string) {
    (ILike(u.username, ident) || ILike(u.email, ident)) && u.role == Teacher
  }

  predicate TeacherNamed(users: seq<User>, ident: string) {
    exists u :: u in users && TeacherMatches(u, ident)
  }

  predicate TeacherKeyed(users: seq<User>, ident: string) {
    ParseInt(ident).Some? && exists u :: u in users && u.id == ParseInt(ident).value && u.role == Teacher
  }

  /**
   * The teacher a row names: by username or email (ILIKE) first, then by
   * key; only TEACHER users qualify, and a key SQLite cannot bind raises.
   */
  function FindTeacher(users: seq<User>, ident: string): (r: Lookup<User>)
    ensures r.Found? <==> TeacherNamed(users, ident) || (!KeyOverflows(ident) && TeacherKeyed(users, ident))
    ensures r.BindOverflow? <==> !TeacherNamed(users, ident) && KeyOverflows(ident)
    ensures r.Found? ==>
      && r.row in users && r.row.role == Teacher
      && (TeacherMatches(r.row, ident) || (!TeacherNamed(users, ident) && ParseInt(ident) == Some(r.row.id)))
    ensures TeacherNamed(users, ident) ==> r.Found? && TeacherMatches(r.row, ident)
  {
    var byName := First(users, (u: User) => TeacherMatches(u, ident));
    if byName.Some? then Found(byName.value)
    else
      var n := ParseInt(ident);
      if n.None? then NoMatch
      else if !FitsSqliteInteger(n.value) then BindOverflow
      else match First(users, (u: User) => u.id == n.value && u.role == Teacher)
        case Some(x) => Found(x)
        case None => NoMatch
  }

  /** `SubjectClass.query.filter(SubjectClass.name.ilike(name))`. */
  predicate ClassNameInUse(classes: seq<SubjectClass>, name: string) {
    exists c :: c in classes && ILike(c.name, name)
  }

  /** A teacher cell the view skips: blank, or "nan" in any case. */
  predicate BlankTeacherText(ident: string) {
    ident == "" || Lower(ident) == "nan"
  }

  /** What the teacher column gives: nothing, a teacher's key, a teacher not found, or a lookup that raises. */
  datatype TeacherCell = NoTeacherGiven | TeacherFound(id: int) | TeacherMissing | TeacherRaises

  /**
   * The teacher column. A given teacher is looked up; a name match wins over
   * the key, and "not found" is reported exactly when no TEACHER user has the
   * name or the key.
   */
  function ReadTeacher(users: seq<User>, cell: Option<string>): (r: TeacherCell)
    ensures r.NoTeacherGiven? <==> cell.None? || BlankTeacherText(Strip(cell.value))
    ensures r.TeacherFound? ==> exists u :: u in users && u.role == Teacher && u.id == r.id
    ensures cell.Some? && !BlankTeacherText(Strip(cell.value)) ==> var ident := Strip(cell.value);
      && (r.TeacherMissing? <==> !TeacherNamed(users, ident) && !KeyOverflows(ident) && !TeacherKeyed(users, ident))
      && (r.TeacherRaises? <==> !TeacherNamed(users, ident) && KeyOverflows(ident))
      && (TeacherNamed(users, ident) ==> r.TeacherFound? && exists u :: u in users && TeacherMatches(u, ident) && u.id == r.id)
      && (r.TeacherFound? && !TeacherNamed(users, ident) ==> ParseInt(ident) == Some(r.id))
  {
    if cell.None? then NoTeacherGiven
    else
      var ident := Strip(cell.value);
      if BlankTeacherText(ident) then NoTeacherGiven
      else match FindTeacher(users, ident)
        case Found(u) => TeacherFound(u.id)
        case NoMatch => TeacherMissing
        case BindOverflow => TeacherRaises
  }

  /** The class's teacher key from the teacher column. */
  function TeacherIdOf(t: TeacherCell): Option<int> {
    if t.TeacherFound? then Some(t.id) else None
  }

  /** The issue the teacher column reports on a row that goes on. */
  function TeacherIssues(t: TeacherCell): seq<ClassIssue> {
    if t.TeacherMissing? then [TeacherNotFound] else []
  }

  /** The two date columns: a bad date is dropped with an issue, and an end before the start drops both. */
  function ReadClassDates(start: Option<string>, end: Option<string>): (r: (Option<Date>, Option<Date>, seq<ClassIssue>))
    ensures EndDateAccepted(r.0, r.1)
    ensures NoSkipIssue(r.2)
  {
    var s, e := ReadDateCell(start), ReadDateCell(end);
    var issues := (if s == BadDate then [BadStartDate] else []) + (if e == BadDate then [BadEndDate] else []);
    var sd, ed := DateOf(s), DateOf(e);
    if sd.Some? && ed.Some? && Before(ed.value, sd.value) then (None, None, issues + [EndBeforeStart])
    else (sd, ed, issues)
  }

  datatype ClassOutcome = ClassOutcome(imported: Option<SubjectClass>, issues: seq<ClassIssue>)

  /** One class row against the stored subjects, users and classes, with `id` the key the new row would receive. */
  function ClassifyClassRow(reading: CellReading, subjects: seq<Subject>, users: seq<User>, classes: seq<SubjectClass>, id: int, row: ClassRow): ClassOutcome {
    var name, ident := Strip(row.name), Strip(row.subject);
    if EmptyText(reading, name) || EmptyText(reading, ident) then ClassOutcome(None, [ClassMissingField])
    else
      match FindSubject(subjects, ident)
      case NoMatch => ClassOutcome(None, [SubjectNotFound])
      case BindOverflow => ClassOutcome(None, [RowError])
      case Found(subject) =>
        var teacher := ReadTeacher(users, row.teacher);
        if teacher.TeacherRaises? then ClassOutcome(None, [RowError])
        else if ClassNameInUse(classes, name) then ClassOutcome(None, TeacherIssues(teacher) + [DuplicateClassName])
        else
          var (start, end, dateIssues) := ReadClassDates(row.startDate, row.endDate);
          ClassOutcome(Some(SubjectClass(id, name, subject.id, TeacherIdOf(teacher), TextOrNone(reading, row.schedule), start, end, TextOrNone(reading, row.academicYear))),
                       TeacherIssues(teacher) + dateIssues)
  }

  /**
   * A skipped row reports its one skip reason last, after at most the
   * teacher issue; an imported row reports no skip reason.
   */
  lemma ClassRowIssues(reading: CellReading, subjects: seq<Subject>, users: seq<User>, classes: seq<SubjectClass>, id: int, row: ClassRow)
    ensures var r := ClassifyClassRow(reading, subjects, users, classes, id, row);
      && (r.imported.None? ==> EndsWithOneSkip(r.issues))
      && (r.imported.Some? ==> NoSkipIssue(r.issues))
  {
    var name, ident := Strip(row.name), Strip(row.subject);
    if EmptyText(reading, name) || EmptyText(reading, ident) {
      EndsWithSkip([], ClassMissingField);
    } else if FindSubject(subjects, ident).NoMatch? {
      EndsWithSkip([], SubjectNotFound);
    } else if FindSubject(subjects, ident).BindOverflow? || ReadTeacher(users, row.teacher).TeacherRaises? {
      EndsWithSkip([], RowError);
    } else {
      var teacherIssues := TeacherIssues(ReadTeacher(users, row.teacher));
      assert NoSkipIssue(teacherIssues);
      if ClassNameInUse(classes, name) {
        EndsWithSkip(teacherIssues, DuplicateClassName);
      } else {
        NoSkipIssueConcat(teacherIssues, ReadClassDates(row.startDate, row.endDate).2);
      }
    }
  }

  /**
   * An imported row becomes a class with the next key, the stripped name,
   * which no stored class has (ILIKE), the subject the row names, the
   * teacher the teacher column gives (reported "not found" exactly when it
   * names no teacher), dates in order and the optional text columns
   * blank-to-None.
   */
  lemma ClassRowImported(reading: CellReading, subjects: seq<Subject>, users: seq<User>, classes: seq<SubjectClass>, id: int, row: ClassRow)
    ensures var r := ClassifyClassRow(reading, subjects, users, classes, id, row);
      r.imported.Some? ==>
      && r.imported.value.id == id
      && r.imported.value.name == Strip(row.name) && !EmptyText(reading, r.imported.value.name)
      && !ClassNameInUse(classes, r.imported.value.name)
      && FindSubject(subjects, Strip(row.subject)).Found?
      && r.imported.value.subjectId == FindSubject(subjects, Strip(row.subject)).row.id
      && !ReadTeacher(users, row.teacher).TeacherRaises?
      && r.imported.value.teacherUserId == TeacherIdOf(ReadTeacher(users, row.teacher))
      && (TeacherNotFound in r.issues <==> ReadTeacher(users, row.teacher).TeacherMissing?)
      && EndDateAccepted(r.imported.value.startDate, r.imported.value.endDate)
      && r.imported.value.scheduleDetails == TextOrNone(reading, row.schedule)
      && r.imported.value.academicYear == TextOrNone(reading, row.academicYear)
  {
  }

  /**
   * A row is skipped by its own exception handler when the subject column
   * names no subject by name and holds a key SQLite cannot bind, or when the
   * subject is found and the teacher column does the same.
   */
  lemma OverflowingKeySkipsRow(reading: CellReading, subjects: seq<Subject>, users: seq<User>, classes: seq<SubjectClass>, id: int, row: ClassRow)
    requires !EmptyText(reading, Strip(row.name)) && !EmptyText(reading, Strip(row.subject))
    requires || (!SubjectNamed(subjects, Strip(row.subject)) && KeyOverflows(Strip(row.subject)))
             || (&& FindSubject(subjects, Strip(row.subject)).Found?
                 && row.teacher.Some? && !BlankTeacherText(Strip(row.teacher.value))
                 && !TeacherNamed(users, Strip(row.teacher.value)) && KeyOverflows(Strip(row.teacher.value)))
    ensures ClassifyClassRow(reading, subjects, users, classes, id, row) == ClassOutcome(None, [RowError])
  {
  }

  /** A digit string with a non-zero leading digit denotes at least 10^(length - 1). */
  lemma {:induction false} LeadingDigitBound(s: string)
    requires |s| > 0 && AllDigits(s) && s[0] != '0'
    ensures DigitsValue(s) >= Pow10(|s| - 1)
  {
    if |s| > 1 {
      LeadingDigitBound(s[..|s| - 1]);
    }
  }

  lemma {:induction false} Pow10Grows(a: nat, b: nat)
    requires a <= b
    ensures Pow10(a) <= Pow10(b)
    decreases b
  {
    if a < b {
      Pow10Grows(a, b - 1);
    }
  }

  /**
   * `int()` reads any key of twenty or more digits without a leading zero,
   * such as "99999999999999999999", as a number beyond SQLite's INTEGER
   * range, so its lookup raises.
   */
  lemma LongKeysOverflow(s: string)
    requires |s| >= 20 && AllDigits(s) && s[0] != '0'
    ensures KeyOverflows(s)
  {
    LeadingDigitBound(s);
    Pow10Grows(19, |s| - 1);
    assert Pow10(5) == 100_000;
    assert Pow10(10) == 10_000_000_000;
    assert Pow10(15) == 1_000_000_000_000_000;
    assert Pow10(19) == 10_000_000_000_000_000_000;
  }

  datatype ClassImport = ClassImport(classes: seq<SubjectClass>, nextId: int, imported: nat, skipped: nat, issues: seq<(nat, ClassIssue)>)

  /** The issues of one row, each tagged with the row's position plus 2, as the view reports it. */
  function Tagged(line: nat, issues: seq<ClassIssue>): (r: seq<(nat, ClassIssue)>)
    ensures |r| == |issues| && forall k :: 0 <= k < |r| ==> r[k] == (line, issues[k])
  {
    seq(|issues|, k requires 0 <= k < |issues| => (line, issues[k]))
  }

  function ClassStep(reading: CellReading, st: ClassImport, index: nat, subjects: seq<Subject>, users: seq<User>, row: ClassRow): ClassImport {
    var o := ClassifyClassRow(reading, subjects, users, st.classes, st.nextId, row);
    if o.imported.Some? then
      st.(classes := st.classes + [o.imported.value], nextId := st.nextId + 1, imported := st.imported + 1,
          issues := st.issues + Tagged(index + 2, o.issues))
    else st.(skipped := st.skipped + 1, issues := st.issues + Tagged(index + 2, o.issues))
  }

  function ImportClassRows(reading: CellReading, subjects: seq<Subject>, users: seq<User>, classes: seq<SubjectClass>, nextId: int, rows: seq<ClassRow>): ClassImport
    decreases |rows|
  {
    if |rows| == 0 then ClassImport(classes, nextId, 0, 0, [])
    else ClassStep(reading, ImportClassRows(reading, subjects, users, classes, nextId, rows[..|rows| - 1]), |rows| - 1, subjects, users, rows[|rows| - 1])
  }

  lemma ClassRowsStep(reading: CellReading, subjects: seq<Subject>, users: seq<User>, classes: seq<SubjectClass>, nextId: int, rows: seq<ClassRow>, i: nat)
    requires i < |rows|
    ensures ImportClassRows(reading, subjects, users, classes, nextId, rows[..i + 1])
         == ClassStep(reading, ImportClassRows(reading, subjects, users, classes, nextId, rows[..i]), i, subjects, users, rows[i])
  {
    assert rows[..i + 1][..i] == rows[..i];
  }

  /** `import_classes_csv` over the rows of a file that has the required columns. */
  method ImportClassesCsv(reading: CellReading, subjects: seq<Subject>, users: seq<User>, classes: seq<SubjectClass>, nextId: int, rows: seq<ClassRow>)
    returns (result: ClassImport, committed: bool)
    ensures result == ImportClassRows(reading, subjects, users, classes, nextId, rows)
    ensures committed <==> result.imported > 0
  {
    result := ClassImport(classes, nextId, 0, 0, []);
    var i := 0;
    while i < |rows|
      invariant 0 <= i <= |rows|
      invariant result == ImportClassRows(reading, subjects, users, classes, nextId, rows[..i])
    {
      ClassRowsStep(reading, subjects, users, classes, nextId, rows, i);
      result := ClassStep(reading, result, i, subjects, users, rows[i]);
      i := i + 1;
    }
    assert rows[..i] == rows;
    committed := result.imported > 0;
  }

  /** How many of the reported issues made a row be skipped. */
  function SkipIssues(issues: seq<(nat, ClassIssue)>): nat {
    if |issues| == 0 then 0
    else SkipIssues(issues[..|issues| - 1]) + (if IsSkipIssue(issues[|issues| - 1].1) then 1 else 0)
  }

  lemma {:induction false} SkipIssuesAppend(a: seq<(nat, ClassIssue)>, b: seq<(nat, ClassIssue)>)
    ensures SkipIssues(a + b) == SkipIssues(a) + SkipIssues(b)
    decreases |b|
  {
    if |b| == 0 {
      assert a + b == a;
    } else {
      assert (a + b)[..|a + b| - 1] == a + b[..|b| - 1];
      SkipIssuesAppend(a, b[..|b| - 1]);
    }
  }

  lemma {:induction false} SkipIssuesOfRow(line: nat, issues: seq<ClassIssue>)
    ensures SkipIssues(Tagged(line, issues)) == |set k | 0 <= k < |issues| && IsSkipIssue(issues[k])|
    decreases |issues|
  {
    if |issues| > 0 {
      var front := issues[..|issues| - 1];
      assert Tagged(line, issues)[..|issues| - 1] == Tagged(line, front);
      SkipIssuesOfRow(line, front);
      var all := set k | 0 <= k < |issues| && IsSkipIssue(issues[k]);
      var before := set k | 0 <= k < |front| && IsSkipIssue(front[k]);
      if IsSkipIssue(issues[|issues| - 1]) {
        assert all == before + {|issues| - 1};
      } else {
        assert all == before;
      }
    }
  }

  /** A row's outcome reports exactly one skip issue when skipped, and none when imported. */
  lemma RowSkipIssues(line: nat, o: ClassOutcome)
    requires o.imported.None? ==> EndsWithOneSkip(o.issues)
    requires o.imported.Some? ==> NoSkipIssue(o.issues)
    ensures SkipIssues(Tagged(line, o.issues)) == if o.imported.None? then 1 else 0
  {
    SkipIssuesOfRow(line, o.issues);
    if o.imported.None? {
      assert (set k | 0 <= k < |o.issues| && IsSkipIssue(o.issues[k])) == {|o.issues| - 1};
    } else {
      assert (set k | 0 <= k < |o.issues| && IsSkipIssue(o.issues[k])) == {};
    }
  }

  /** Class names are distinct up to case. */
  predicate ClassNamesDistinct(c: seq<SubjectClass>) {
    forall i, j :: 0 <= i < j < |c| ==> !EqualsIgnoreCase(c[i].name, c[j].name)
  }

  /** Every stored class has no end date before its start date. */
  predicate DatesOrdered(c: seq<SubjectClass>) {
    forall i :: 0 <= i < |c| ==> EndDateAccepted(c[i].startDate, c[i].endDate)
  }

  /**
   * Every class row is either imported or skipped, the stored classes are
   * kept in front, and each imported class takes the next key.
   */
  lemma {:induction false} ClassImportCounts(reading: CellReading, subjects: seq<Subject>, users: seq<User>, classes: seq<SubjectClass>, nextId: int, rows: seq<ClassRow>)
    ensures var r := ImportClassRows(reading, subjects, users, classes, nextId, rows);
      && r.imported + r.skipped == |rows|
      && |r.classes| == |classes| + r.imported
      && r.classes[..|classes|] == classes
      && r.nextId == nextId + r.imported
    decreases |rows|
  {
    if |rows| > 0 {
      ClassImportCounts(reading, subjects, users, classes, nextId, rows[..|rows| - 1]);
      var prev := ImportClassRows(reading, subjects, users, classes, nextId, rows[..|rows| - 1]);
      var r := ImportClassRows(reading, subjects, users, classes, nextId, rows);
      assert r.classes[..|classes|] == prev.classes[..|classes|];
    }
  }

  /**
   * Each skipped row reports exactly one skip reason; an imported row may
   * still report teacher or date issues.
   */
  lemma {:induction false} ClassImportSkips(reading: CellReading, subjects: seq<Subject>, users: seq<User>, classes: seq<SubjectClass>, nextId: int, rows: seq<ClassRow>)
    ensures var r := ImportClassRows(reading, subjects, users, classes, nextId, rows);
      SkipIssues(r.issues) == r.skipped
    decreases |rows|
  {
    if |rows| > 0 {
      ClassImportSkips(reading, subjects, users, classes, nextId, rows[..|rows| - 1]);
      var prev := ImportClassRows(reading, subjects, users, classes, nextId, rows[..|rows| - 1]);
      ClassStepSkips(reading, prev, |rows| - 1, subjects, users, rows[|rows| - 1]);
    }
  }

  /** One row adds one skip reason to the report exactly when it is skipped. */
  lemma ClassStepSkips(reading: CellReading, st: ClassImport, index: nat, subjects: seq<Subject>, users: seq<User>, row: ClassRow)
    requires SkipIssues(st.issues) == st.skipped
    ensures var r := ClassStep(reading, st, index, subjects, users, row);
      SkipIssues(r.issues) == r.skipped
  {
    var o := ClassifyClassRow(reading, subjects, users, st.classes, st.nextId, row);
    ClassRowIssues(reading, subjects, users, st.classes, st.nextId, row);
    SkipIssuesAppend(st.issues, Tagged(index + 2, o.issues));
    RowSkipIssues(index + 2, o);
  }

  /** The import keeps class names distinct up to case. */
  lemma {:induction false} ClassImportKeepsNames(reading: CellReading, subjects: seq<Subject>, users: seq<User>, classes: seq<SubjectClass>, nextId: int, rows: seq<ClassRow>)
    requires ClassNamesDistinct(classes)
    ensures ClassNamesDistinct(ImportClassRows(reading, subjects, users, classes, nextId, rows).classes)
    decreases |rows|
  {
    if |rows| > 0 {
      ClassImportKeepsNames(reading, subjects, users, classes, nextId, rows[..|rows| - 1]);
      ClassStepKeepsNames(reading, ImportClassRows(reading, subjects, users, classes, nextId, rows[..|rows| - 1]), |rows| - 1, subjects, users, rows[|rows| - 1]);
    }
  }

  lemma ClassStepKeepsNames(reading: CellReading, st: ClassImport, index: nat, subjects: seq<Subject>, users: seq<User>, row: ClassRow)
    requires ClassNamesDistinct(st.classes)
    ensures ClassNamesDistinct(ClassStep(reading, st, index, subjects, users, row).classes)
  {
    var o := ClassifyClassRow(reading, subjects, users, st.classes, st.nextId, row);
    if o.imported.Some? {
      ClassRowImported(reading, subjects, users, st.classes, st.nextId, row);
      var x := o.imported.value;
      var t := st.classes + [x];
      forall i | 0 <= i < |st.classes| ensures !EqualsIgnoreCase(t[i].name, x.name) {
        assert t[i] in st.classes;
        if EqualsIgnoreCase(t[i].name, x.name) {
          ILikeCaseVariant(t[i].name, x.name);
        }
      }
      assert ClassStep(reading, st, index, subjects, users, row).classes == t;
    }
  }

  /** The import keeps every class's end date not before its start date. */
  lemma {:induction false} ClassImportKeepsDates(reading: CellReading, subjects: seq<Subject>, users: seq<User>, classes: seq<SubjectClass>, nextId: int, rows: seq<ClassRow>)
    requires DatesOrdered(classes)
    ensures DatesOrdered(ImportClassRows(reading, subjects, users, classes, nextId, rows).classes)
    decreases |rows|
  {
    if |rows| > 0 {
      ClassImportKeepsDates(reading, subjects, users, classes, nextId, rows[..|rows| - 1]);
      ClassStepKeepsDates(reading, ImportClassRows(reading, subjects, users, classes, nextId, rows[..|rows| - 1]), |rows| - 1, subjects, users, rows[|rows| - 1]);
    }
  }

  lemma ClassStepKeepsDates(reading: CellReading, st: ClassImport, index: nat, subjects: seq<Subject>, users: seq<User>, row: ClassRow)
    requires DatesOrdered(st.classes)
    ensures DatesOrdered(ClassStep(reading, st, index, subjects, users, row).classes)
  {
    var o := ClassifyClassRow(reading, subjects, users, st.classes, st.nextId, row);
    if o.imported.Some? {
      ClassRowImported(reading, subjects, users, st.classes, st.nextId, row);
      var t := st.classes + [o.imported.value];
      assert forall i :: 0 <= i < |st.classes| ==> t[i] == st.classes[i];
      assert ClassStep(reading, st, index, subjects, users, row).classes == t;
    }
  }
}
