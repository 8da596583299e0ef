/**
 * The data model of app/models.py: the role and status vocabularies, the
 * rows of the tables the core reads and writes, the keys that make rows
 * unique, the column defaults, and the (last name, first name) order in
 * which students are listed.
 *
 * Tables are finite maps keyed by their unique key, sets of key pairs, or
 * sequences of rows in primary-key order (where the application reads the
 * first matching row or sorts the rows); a map keyed by a key can hold at
 * most one record per key.
 */
module Models {
  import opened Wrappers
  import opened Text
  import opened Dates

  // ---- UserRole ----

  /** `UserRole`; the constructors are in declaration order. */
  datatype UserRole = Superuser | Admin | Teacher | Staff {

    /** The member's value, stored in the database and posted by forms. */
    function Value(): string {
      match this
      case Superuser => "superuser"
      case Admin => "admin"
      case Teacher => "teacher"
      case Staff => "staff"
    }

    /** The member's name. */
    function Name(): string {
      match this
      case Superuser => "SUPERUSER"
      case Admin => "ADMIN"
      case Teacher => "TEACHER"
      case Staff => "STAFF"
    }
  }

  /** Iterating over `UserRole` yields the members in declaration order. */
  const AllRoles: seq<UserRole> := [Superuser, Admin, Teacher, Staff]

  lemma AllRolesListsEveryRoleOnce(r: UserRole)
    ensures r in AllRoles
    ensures forall i, j :: 0 <= i < j < |AllRoles| ==> AllRoles[i] != AllRoles[j]
  {
  }

  /** `UserRole(s)`: the member whose value is `s`; None where Python raises ValueError. */
  function RoleFromValue(s: string): (r: Option<UserRole>)
    ensures r.Some? ==> r.value.Value() == s
    ensures r.None? ==> forall role: UserRole :: role.Value() != s
  {
    if s == "superuser" then Some(Superuser)
    else if s == "admin" then Some(Admin)
    else if s == "teacher" then Some(Teacher)
    else if s == "staff" then Some(Staff)
    else None
  }

  /** A member's value converts back to that member. */
  lemma RoleValueRoundTrip(r: UserRole)
    ensures RoleFromValue(r.Value()) == Some(r)
  {
  }

  predicate IsCased(c: char) {
    'A' <= c <= 'Z' || 'a' <= c <= 'z'
  }

  function UpperChar(c: char): char {
    if 'a' <= c <= 'z' then (c as int - 32) as char else c
  }

  /**
   * Python's `str.title()` on ASCII text: a letter is upper-cased when the
   * character before it is not a letter, and lower-cased otherwise.
   */
  function Title(s: string): string {
    TitleAfter(s, false)
  }

  function TitleAfter(s: string, previousCased: bool): (r: string)
    ensures |r| == |s|
  {
    if |s| == 0 then ""
    else
      var c := if !IsCased(s[0]) then s[0] else if previousCased then LowerChar(s[0]) else UpperChar(s[0]);
      [c] + TitleAfter(s[1..], IsCased(s[0]))
  }

  /** The choice a member contributes: its value and its title-cased name. */
  function Choice(r: UserRole): (string, string) {
    (r.Value(), Title(r.Name()))
  }

  /** `UserRole.get_choices()`: one (value, title-cased name) pair per member, in declaration order. */
  function GetChoices(): (r: seq<(string, string)>)
    ensures |r| == |AllRoles|
  {
    seq(|AllRoles|, i requires 0 <= i < |AllRoles| => Choice(AllRoles[i]))
  }

  /** `title()` of a word in capitals keeps its first letter and lower-cases the rest. */
  lemma {:induction false} TitleOfCapitalWord(n: string)
    requires |n| > 0 && forall i :: 0 <= i < |n| ==> 'A' <= n[i] <= 'Z'
    ensures Title(n) == [n[0]] + Lower(n[1..])
  {
    assert IsCased(n[0]) && UpperChar(n[0]) == n[0];
    TitleOfCapitals(n[1..]);
    assert n == [n[0]] + n[1..];
  }

  /** After a letter, a run of capitals is lower-cased. */
  lemma {:induction false} TitleOfCapitals(s: string)
    requires forall i :: 0 <= i < |s| ==> 'A' <= s[i] <= 'Z'
    ensures TitleAfter(s, true) == Lower(s)
  {
    if |s| > 0 {
      TitleOfCapitals(s[1..]);
      assert Lower(s) == [LowerChar(s[0])] + Lower(s[1..]);
    }
  }

  lemma SuperuserTitle()
    ensures Title(Superuser.Name()) == "Superuser"
  {
    TitleOfCapitalWord("SUPERUSER");
    assert "SUPERUSER"[1..] == "UPERUSER";
    assert Lower("UPERUSER") == "uperuser";
    assert ["SUPERUSER"[0]] + "uperuser" == "Superuser";
  }

  lemma AdminTitle()
    ensures Title(Admin.Name()) == "Admin"
  {
    TitleOfCapitalWord("ADMIN");
    assert "ADMIN"[1..] == "DMIN";
    assert Lower("DMIN") == "dmin";
    assert ["ADMIN"[0]] + "dmin" == "Admin";
  }

  lemma TeacherTitle()
    ensures Title(Teacher.Name()) == "Teacher"
  {
    TitleOfCapitalWord("TEACHER");
    assert "TEACHER"[1..] == "EACHER";
    assert Lower("EACHER") == "eacher";
    assert ["TEACHER"[0]] + "eacher" == "Teacher";
  }

  lemma StaffTitle()
    ensures Title(Staff.Name()) == "Staff"
  {
    TitleOfCapitalWord("STAFF");
    assert "STAFF"[1..] == "TAFF";
    assert Lower("TAFF") == "taff";
    assert ["STAFF"[0]] + "taff" == "Staff";
  }

  /** The role choices offered by the user form, as (value, label). */
  lemma GetChoicesLists()
    ensures |GetChoices()| == 4
    ensures GetChoices()[0] == ("superuser", "Superuser")
    ensures GetChoices()[1] == ("admin", "Admin")
    ensures GetChoices()[2] == ("teacher", "Teacher")
    ensures GetChoices()[3] == ("staff", "Staff")
  {
    SuperuserTitle();
    AdminTitle();
    TeacherTitle();
    StaffTitle();
  }

  /** Each choice's value names the member it was made from. */
  lemma ChoiceValuesNameRoles()
    ensures forall i :: 0 <= i < |AllRoles| ==> RoleFromValue(GetChoices()[i].0) == Some(AllRoles[i])
  {
    forall i | 0 <= i < |AllRoles| ensures RoleFromValue(GetChoices()[i].0) == Some(AllRoles[i]) {
      RoleValueRoundTrip(AllRoles[i]);
    }
  }

  // ---- Users ----

  /**
   * A row of `users`. `secret` stands for the password that `password_hash`
   * holds the hash of (hashing is not modelled).
   */
  datatype User = User(
    id: int,
    username: string,
    email: string,
    firstName: Option<string>,
    lastName: Option<string>,
    role: UserRole,
    isActive: bool,
    secret: Option<string>)
  {
    predicate IsSuperuser() { role == Superuser }
    predicate IsAdmin() { role == Admin || role == Superuser }
    predicate IsTeacher() { role == Teacher }
    predicate IsStaff() { role == Staff }
  }

  /**
   * The role predicates: `is_superuser` implies `is_admin`; `is_teacher` and
   * `is_staff` each hold for one role and exclude `is_admin`; every user is
   * exactly one of superuser, plain admin, teacher or staff.
   */
  lemma RolePredicates(u: User)
    ensures u.IsAdmin() <==> u.role in {Admin, Superuser}
    ensures u.IsSuperuser() ==> u.IsAdmin()
    ensures u.IsTeacher() <==> u.role == Teacher
    ensures u.IsStaff() <==> u.role == Staff
    ensures !(u.IsAdmin() && u.IsStaff()) && !(u.IsAdmin() && u.IsTeacher()) && !(u.IsTeacher() && u.IsStaff())
    ensures u.IsAdmin() || u.IsTeacher() || u.IsStaff()
  {
  }

  // ---- Students, subjects, classes ----

  /** A row of `students`. */
  datatype Student = Student(
    id: int,
    studentIdNumber: string,
    firstName: string,
    lastName: string,
    email: Option<string>,
    contactNumber: Option<string>,
    dateOfBirth: Option<Date>,
    isActive: bool,
    isInArrears: bool)

  /** A row of `subjects`. */
  datatype Subject = Subject(id: int, name: string, description: Option<string>)

  /** A row of `subject_classes`; `scheduleDetails` is the free-text schedule. */
  datatype SubjectClass = SubjectClass(
    id: int,
    name: string,
    subjectId: int,
    teacherUserId: Option<int>,
    scheduleDetails: Option<string>,
    startDate: Option<Date>,
    endDate: Option<Date>,
    academicYear: Option<string>)

  /** `enrollments`: (student id, class id) is the primary key, so a pair occurs at most once. */
  type Enrollments = set<(int, int)>

  // ---- Attendance ----

  /** The statuses the marking form offers, as (value, label). */
  const StatusChoices: seq<(string, string)> := [
    ("present", "Present"),
    ("absent", "Absent"),
    ("late", "Late"),
    ("excused", "Excused"),
    ("public_holiday", "Public Holiday"),
    ("school_holiday", "School Holiday")]

  predicate IsStatusValue(s: string) {
    exists i :: 0 <= i < |StatusChoices| && StatusChoices[i].0 == s
  }

  /** The legacy enum `AttendanceStatus`, which has only the first four statuses. */
  datatype AttendanceStatus = Present | Absent | Late | Excused {
    function Value(): string {
      match this
      case Present => "present"
      case Absent => "absent"
      case Late => "late"
      case Excused => "excused"
    }
  }

  /** `AttendanceStatus(s)`: None where Python raises ValueError. */
  function LegacyStatusFromValue(s: string): (r: Option<AttendanceStatus>)
    ensures r.Some? ==> r.value.Value() == s
  {
    if s == "present" then Some(Present)
    else if s == "absent" then Some(Absent)
    else if s == "late" then Some(Late)
    else if s == "excused" then Some(Excused)
    else None
  }

  /**
   * The status vocabulary is exactly the six choices; the legacy enum accepts
   * exactly the first four, so both holiday statuses are offered by the form
   * but rejected by `AttendanceStatus(...)`.
   */
  lemma StatusVocabulary(s: string)
    ensures IsStatusValue(s) <==> s in {"present", "absent", "late", "excused", "public_holiday", "school_holiday"}
    ensures LegacyStatusFromValue(s).Some? <==> (IsStatusValue(s) && s !in {"public_holiday", "school_holiday"})
  {
    if s == "present" { assert StatusChoices[0].0 == s; }
    if s == "absent" { assert StatusChoices[1].0 == s; }
    if s == "late" { assert StatusChoices[2].0 == s; }
    if s == "excused" { assert StatusChoices[3].0 == s; }
    if s == "public_holiday" { assert StatusChoices[4].0 == s; }
    if s == "school_holiday" { assert StatusChoices[5].0 == s; }
  }

  /**
   * The unique key of `attendance_records`. `sessionTime` is the optional
   * `session_time` (seconds after midnight).
   */
  datatype AttendanceKey = AttendanceKey(studentId: int, classId: int, date: Date, sessionTime: Option<int>)

  /** The other columns of an attendance row; `id` is the primary key. */
  datatype AttendanceRecord = AttendanceRecord(id: int, status: string, remarks: Option<string>, recordedBy: Option<int>)

  /** The attendance table, with at most one record per key. */
  type AttendanceTable = map<AttendanceKey, AttendanceRecord>

  /**
   * What SQL's UNIQUE constraint on (student_id, subject_class_id, date,
   * session_time) rejects: a second row equal in all four columns, where
   * NULL counts as different from every value, NULL included.
   */
  predicate UniqueConstraintClash(a: AttendanceKey, b: AttendanceKey) {
    a.studentId == b.studentId && a.classId == b.classId && a.date == b.date
    && a.sessionTime.Some? && b.sessionTime.Some? && a.sessionTime.value == b.sessionTime.value
  }

  /**
   * Rows without a session time never clash, so the constraint does not stop
   * two attendance rows for the same student, class and date when (as in
   * every row the marking view writes) `session_time` is NULL.
   */
  lemma NullSessionDuplicatesAdmitted(k: AttendanceKey)
    requires k.sessionTime.None?
    ensures !UniqueConstraintClash(k, k)
  {
  }

  // ---- Ordering by (last name, first name) ----

  /** String order (SQLite's BINARY collation: by code point, a prefix first). */
  predicate StrLess(a: string, b: string)
    decreases |a|
  {
    if |a| == 0 then |b| > 0
    else |b| > 0 && (a[0] < b[0] || (a[0] == b[0] && StrLess(a[1..], b[1..])))
  }

  lemma {:induction false} StrLessIrreflexive(a: string)
    ensures !StrLess(a, a)
    decreases |a|
  {
    if |a| > 0 { StrLessIrreflexive(a[1..]); }
  }

  lemma {:induction false} StrLessTransitive(a: string, b: string, c: string)
    requires StrLess(a, b) && StrLess(b, c)
    ensures StrLess(a, c)
    decreases |a|
  {
    if |a| > 0 && a[0] == b[0] && b[0] == c[0] {
      StrLessTransitive(a[1..], b[1..], c[1..]);
    }
  }

  lemma {:induction false} StrLessTotal(a: string, b: string)
    ensures a == b || StrLess(a, b) || StrLess(b, a)
    decreases |a|
  {
    if |a| > 0 && |b| > 0 && a[0] == b[0] {
      StrLessTotal(a[1..], b[1..]);
      if a[1..] == b[1..] {
        assert a == [a[0]] + a[1..] && b == [b[0]] + b[1..];
      }
    }
  }

  /** `ORDER BY last_name, first_name`: `a` may come before `b`. */
  predicate NameLeq(a: Student, b: Student) {
    StrLess(a.lastName, b.lastName)
    || (a.lastName == b.lastName && (a.firstName == b.firstName || StrLess(a.firstName, b.firstName)))
  }

  lemma NameLeqTransitive(a: Student, b: Student, c: Student)
    requires NameLeq(a, b) && NameLeq(b, c)
    ensures NameLeq(a, c)
  {
    if StrLess(a.lastName, b.lastName) && StrLess(b.lastName, c.lastName) {
      StrLessTransitive(a.lastName, b.lastName, c.lastName);
    }
    if a.lastName == b.lastName == c.lastName && StrLess(a.firstName, b.firstName) && StrLess(b.firstName, c.firstName) {
      StrLessTransitive(a.firstName, b.firstName, c.firstName);
    }
  }

  lemma NameLeqTotal(a: Student, b: Student)
    ensures NameLeq(a, b) || NameLeq(b, a)
  {
    StrLessTotal(a.lastName, b.lastName);
    StrLessTotal(a.firstName, b.firstName);
  }

  predicate SortedByName(s: seq<Student>) {
    forall i, j :: 0 <= i < j < |s| ==> NameLeq(s[i], s[j])
  }

  /** A student that may precede every element of a sorted sequence may be put in front of it. */
  lemma PrependSorted(x: Student, s: seq<Student>)
    requires SortedByName(s)
    requires forall j :: 0 <= j < |s| ==> NameLeq(x, s[j])
    ensures SortedByName([x] + s)
  {
    var t := [x] + s;
    forall i, j | 0 <= i < j < |t| ensures NameLeq(t[i], t[j]) {
      assert t[j] == s[j - 1];
      if i > 0 { assert t[i] == s[i - 1]; }
    }
  }

  /** Every element of a sorted sequence may follow the first. */
  lemma FirstLeqAll(x: Student, s: seq<Student>)
    requires SortedByName(s) && |s| > 0 && NameLeq(x, s[0])
    ensures forall j :: 0 <= j < |s| ==> NameLeq(x, s[j])
  {
    forall j | 0 < j < |s| ensures NameLeq(x, s[j]) {
      NameLeqTransitive(x, s[0], s[j]);
    }
  }

  /** Places `x` before the first element it may precede. */
  function InsertByName(x: Student, s: seq<Student>): (r: seq<Student>)
    requires SortedByName(s)
    ensures SortedByName(r)
    ensures multiset(r) == multiset(s) + multiset{x}
  {
    if |s| == 0 then [x]
    else if NameLeq(x, s[0]) then
      FirstLeqAll(x, s);
      PrependSorted(x, s);
      [x] + s
    else
      var rest := InsertByName(x, s[1..]);
      NameLeqTotal(x, s[0]);
      assert s == [s[0]] + s[1..];
      FollowersOfFirst(x, s, rest);
      PrependSorted(s[0], rest);
      [s[0]] + rest
  }

  /** What the recursive insertion returns may all follow the first element. */
  lemma FollowersOfFirst(x: Student, s: seq<Student>, rest: seq<Student>)
    requires SortedByName(s) && |s| > 0 && NameLeq(s[0], x)
    requires multiset(rest) == multiset(s[1..]) + multiset{x}
    ensures forall j :: 0 <= j < |rest| ==> NameLeq(s[0], rest[j])
  {
    forall j | 0 <= j < |rest| ensures NameLeq(s[0], rest[j]) {
      assert rest[j] in multiset(rest);
      if rest[j] != x {
        assert rest[j] in multiset(s[1..]);
        var k :| 0 <= k < |s[1..]| && s[1..][k] == rest[j];
        assert s[k + 1] == rest[j];
      }
    }
  }

  /**
   * The students in (last name, first name) order: a sorted permutation of
   * the input. How rows with equal names are ordered is left open, as SQL
   * leaves it.
   */
  function SortByName(s: seq<Student>): (r: seq<Student>)
    ensures SortedByName(r)
    ensures multiset(r) == multiset(s)
  {
    if |s| == 0 then []
    else
      assert s == [s[0]] + s[1..];
      InsertByName(s[0], SortByName(s[1..]))
  }

  /** The students among `s` that `keep` selects, in their input order. */
  function Where(s: seq<Student>, keep: Student -> bool): (r: seq<Student>)
    ensures forall x :: multiset(r)[x] == if keep(x) then multiset(s)[x] else 0
  {
    if |s| == 0 then []
    else
      assert s == [s[0]] + s[1..];
      (if keep(s[0]) then [s[0]] else []) + Where(s[1..], keep)
  }

  predicate IsActiveStudent(x: Student) {
    x.isActive
  }

  /** `Student.query.filter_by(is_active=True)`. */
  function ActiveOnly(s: seq<Student>): (r: seq<Student>)
    ensures forall x :: multiset(r)[x] == if x.isActive then multiset(s)[x] else 0
  {
    Where(s, IsActiveStudent)
  }
}
