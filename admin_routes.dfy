/**
 * The state-changing rules of app/admin/routes.py: enrolling and unenrolling
 * students, the referential guards in front of every delete, and the
 * user-management rules of `edit_user_admin` and `delete_user_admin`. The
 * access gates in front of these views are in module Decorators.
 *
 * Two places in the source do not do what they evidently mean, and the model
 * keeps both halves:
 *  - `delete_student` and `delete_subject_class` test the backrefs
 *    `attendance_entries` and `attendance_records`, which do not exist (the
 *    attendance backref on both models is `attendances`, app/models.py:178-179),
 *    so the guard raises AttributeError instead of deciding. The as-written
 *    functions return `DeleteCrashed`; `DeleteStudent` and `DeleteSubjectClass`
 *    test the relationship that is meant.
 *  - `edit_user_admin` converts `request.form.get('role')` with `UserRole(...)`
 *    before it looks at the request method, so an administrator opening their
 *    own edit page (a GET, where the form has no role) gets ValueError. The
 *    pre-check only flashes warnings, so `EditUserAdmin` leaves it out.
 */
module AdminRoutes {
  import opened Wrappers
  import opened Models
  import opened Queries
  import opened AdminForms

  /** The tables the admin views read and change. */
  datatype Db = Db(
    users: seq<User>,
    subjects: seq<Subject>,
    students: seq<Student>,
    classes: seq<SubjectClass>,
    enrolled: Enrollments,
    attendance: AttendanceTable)

  /** `users.id` is the primary key. */
  predicate UserIdsUnique(users: seq<User>) {
    forall i, j :: 0 <= i < |users| && 0 <= j < |users| && users[i].id == users[j].id ==> i == j
  }

  function ClassIds(db: Db): set<int> {
    set c | c in db.classes :: c.id
  }

  predicate HasClass(db: Db, classId: int) {
    exists c :: c in db.classes && c.id == classId
  }

  predicate HasStudent(db: Db, studentId: int) {
    exists s :: s in db.students && s.id == studentId
  }

  // ---- manage_enrollments ----

  /** The students of `selected` that the class does not already hold. */
  function NewlyEnrolled(enrolled: Enrollments, classId: int, selected: seq<int>): set<int> {
    set s | s in selected && (s, classId) !in enrolled
  }

  /** The enrollment pairs that `selected` asks for. */
  function Requested(classId: int, selected: seq<int>): Enrollments {
    set s | s in selected :: (s, classId)
  }

  lemma RequestedStep(classId: int, selected: seq<int>, i: nat)
    requires i < |selected|
    ensures Requested(classId, selected[..i + 1]) == Requested(classId, selected[..i]) + {(selected[i], classId)}
  {
    PrefixStep(selected, i);
    var before, after := Requested(classId, selected[..i]), Requested(classId, selected[..i + 1]);
    forall p | p in after ensures p in before + {(selected[i], classId)} {
      var s :| s in selected[..i + 1] && p == (s, classId);
    }
    forall p | p in before + {(selected[i], classId)} ensures p in after {
      if p in before {
        var s :| s in selected[..i] && p == (s, classId);
        assert s in selected[..i + 1];
        assert (s, classId) in after;
      } else {
        var s := selected[i];
        assert p == (s, classId);
        assert selected[..i + 1][i] == s;
        assert s in selected[..i + 1];
        assert (s, classId) in after;
      }
    }
  }

  /** Membership in one more element of a prefix. */
  lemma PrefixStep(selected: seq<int>, i: nat)
    requires i < |selected|
    ensures forall s :: s in selected[..i + 1] <==> s in selected[..i] || s == selected[i]
  {
    assert selected[..i + 1] == selected[..i] + [selected[i]];
  }

  lemma NewlyEnrolledStep(enrolled: Enrollments, classId: int, selected: seq<int>, i: nat)
    requires i < |selected|
    ensures (selected[i], classId) !in enrolled + Requested(classId, selected[..i]) ==>
      selected[i] !in NewlyEnrolled(enrolled, classId, selected[..i])
      && NewlyEnrolled(enrolled, classId, selected[..i + 1]) == NewlyEnrolled(enrolled, classId, selected[..i]) + {selected[i]}
    ensures (selected[i], classId) in enrolled + Requested(classId, selected[..i]) ==>
      NewlyEnrolled(enrolled, classId, selected[..i + 1]) == NewlyEnrolled(enrolled, classId, selected[..i])
  {
    PrefixStep(selected, i);
    if selected[i] in NewlyEnrolled(enrolled, classId, selected[..i]) {
      var s := selected[i];
      assert s in selected[..i];
      assert (s, classId) in Requested(classId, selected[..i]);
    }
  }

  datatype EnrollResponse =
    | EnrollClassNotFound                   // 404
    | EnrollFormPage                        // the form was not (validly) submitted
    | EnrollmentsSaved(added: nat)          // committed
    | NothingToEnroll                       // nothing new, nothing committed

  /**
   * `manage_enrollments` once the form is valid: every selected student is
   * appended unless already enrolled, counting the appends, and the session
   * is committed only when something was added.
   */
  method EnrollStudents(enrolled: Enrollments, classId: int, selected: seq<int>) returns (result: Enrollments, added: nat, committed: bool)
    ensures result == enrolled + Requested(classId, selected)
    ensures added == |NewlyEnrolled(enrolled, classId, selected)|
    ensures committed <==> added > 0
    ensures !committed ==> result == enrolled
  {
    result, added := enrolled, 0;
    var i := 0;
    while i < |selected|
      invariant 0 <= i <= |selected|
      invariant result == enrolled + Requested(classId, selected[..i])
      invariant added == |NewlyEnrolled(enrolled, classId, selected[..i])|
    {
      RequestedStep(classId, selected, i);
      NewlyEnrolledStep(enrolled, classId, selected, i);
      if (selected[i], classId) !in result {
        result := result + {(selected[i], classId)};
        added := added + 1;
      }
      i := i + 1;
    }
    assert selected[..i] == selected;
    committed := added > 0;
    if !committed {
      assert NewlyEnrolled(enrolled, classId, selected) == {};
      forall p | p in Requested(classId, selected) ensures p in enrolled {
        var s :| s in selected && p == (s, classId);
        assert s !in NewlyEnrolled(enrolled, classId, selected);
      }
    }
  }

  /**
   * The enrollment form accepts a non-empty selection drawn from its picker,
   * `get_students_not_in_class`.
   */
  predicate SelectionValid(db: Db, classId: int, selected: seq<int>) {
    var choices := StudentsNotInClass(db.students, ClassIds(db), db.enrolled, Some(classId));
    |selected| > 0 && forall i :: 0 <= i < |selected| ==> exists x :: x in choices && x.id == selected[i]
  }

  /**
   * A selection from the picker holds only students of the class's roster who
   * are active and not yet enrolled, so each one is added and the count is
   * the number of students selected.
   */
  lemma SelectionAllNew(db: Db, classId: int, selected: seq<int>)
    requires HasClass(db, classId) && classId != 0
    requires SelectionValid(db, classId, selected)
    ensures NewlyEnrolled(db.enrolled, classId, selected) == set s | s in selected
    ensures |NewlyEnrolled(db.enrolled, classId, selected)| > 0
  {
    var choices := StudentsNotInClass(db.students, ClassIds(db), db.enrolled, Some(classId));
    var c :| c in db.classes && c.id == classId;
    assert classId in ClassIds(db);
    forall s | s in selected ensures (s, classId) !in db.enrolled {
      var i :| 0 <= i < |selected| && selected[i] == s;
      var x :| x in choices && x.id == s;
      ChoiceNotEnrolled(db.students, ClassIds(db), db.enrolled, classId, x);
    }
    assert selected[0] in NewlyEnrolled(db.enrolled, classId, selected);
  }

  /** A student the picker offers for an existing class is not enrolled in it. */
  lemma ChoiceNotEnrolled(students: seq<Student>, classIds: set<int>, enrolled: Enrollments, classId: int, x: Student)
    requires classId != 0 && classId in classIds
    requires x in StudentsNotInClass(students, classIds, enrolled, Some(classId))
    ensures (x.id, classId) !in enrolled
  {
    assert multiset(StudentsNotInClass(students, classIds, enrolled, Some(classId)))[x] > 0;
  }

  /** The whole view: 404 for an unknown class, the form page until a valid submission, then the enrolment. */
  method ManageEnrollments(db: Db, classId: int, isPost: bool, selected: seq<int>) returns (resp: EnrollResponse, after: Db)
    ensures resp == EnrollClassNotFound <==> !HasClass(db, classId)
    ensures resp == EnrollFormPage <==> HasClass(db, classId) && !(isPost && SelectionValid(db, classId, selected))
    ensures resp.EnrollmentsSaved? ==>
      after == db.(enrolled := db.enrolled + Requested(classId, selected))
      && resp.added == |NewlyEnrolled(db.enrolled, classId, selected)| > 0
    ensures resp == NothingToEnroll <==>
      HasClass(db, classId) && isPost && SelectionValid(db, classId, selected) && NewlyEnrolled(db.enrolled, classId, selected) == {}
    ensures HasClass(db, classId) && classId != 0 && isPost && SelectionValid(db, classId, selected) ==> resp.EnrollmentsSaved?
    ensures !resp.EnrollmentsSaved? ==> after == db
  {
    after := db;
    if !HasClass(db, classId) {
      resp := EnrollClassNotFound;
    } else if !(isPost && SelectionValid(db, classId, selected)) {
      resp := EnrollFormPage;
    } else {
      if classId != 0 {
        SelectionAllNew(db, classId, selected);
      }
      var result, added, committed := EnrollStudents(db.enrolled, classId, selected);
      if committed {
        resp := EnrollmentsSaved(added);
        after := db.(enrolled := result);
      } else {
        resp := NothingToEnroll;
      }
    }
  }

  // ---- unenroll_student ----

  datatype UnenrollResponse = UnenrollNotFound | Unenrolled | NotEnrolled

  /** `unenroll_student`: remove the pair if present; a 404 when the class or the student is unknown. */
  function Unenroll(db: Db, classId: int, studentId: int): (r: (UnenrollResponse, Db))
    ensures r.0 == UnenrollNotFound <==> !HasClass(db, classId) || !HasStudent(db, studentId)
    ensures r.0 == Unenrolled <==> HasClass(db, classId) && HasStudent(db, studentId) && (studentId, classId) in db.enrolled
    ensures r.0 != Unenrolled ==> r.1 == db
    ensures r.0 == Unenrolled ==> r.1 == db.(enrolled := r.1.enrolled)
    ensures (studentId, classId) !in r.1.enrolled || r.0 != Unenrolled
    ensures forall p :: p != (studentId, classId) ==> (p in r.1.enrolled <==> p in db.enrolled)
  {
    if !HasClass(db, classId) || !HasStudent(db, studentId) then (UnenrollNotFound, db)
    else if (studentId, classId) in db.enrolled then (Unenrolled, db.(enrolled := db.enrolled - {(studentId, classId)}))
    else (NotEnrolled, db)
  }

  /** Enrolling one new student and unenrolling them again restores the enrollments. */
  method EnrollThenUnenroll(db: Db, classId: int, studentId: int) returns (restored: Enrollments)
    requires HasClass(db, classId) && HasStudent(db, studentId) && (studentId, classId) !in db.enrolled
    ensures restored == db.enrolled
  {
    var result, added, committed := EnrollStudents(db.enrolled, classId, [studentId]);
    assert Requested(classId, [studentId]) == {(studentId, classId)};
    var r := Unenroll(db.(enrolled := result), classId, studentId);
    assert r.0 == Unenrolled;
    restored := r.1.enrolled;
  }

  // ---- The delete guards ----

  datatype DeleteResponse =
    | DeleteNotFound      // 404
    | DeleteRefused       // the guard found dependent rows; nothing changes
    | Deleted
    | DeleteCrashed       // the guard raised; nothing changes

  predicate SubjectHasClasses(db: Db, subjectId: int) {
    exists c :: c in db.classes && c.subjectId == subjectId
  }

  function WithoutSubject(db: Db, subjectId: int): Db {
    db.(subjects := Keep(db.subjects, (x: Subject) => x.id != subjectId))
  }

  /** `delete_subject`: refused while a class uses the subject. */
  function DeleteSubject(db: Db, subjectId: int): (r: (DeleteResponse, Db))
    ensures r.0 == DeleteNotFound <==> forall x :: x in db.subjects ==> x.id != subjectId
    ensures r.0 == DeleteRefused <==> (exists x :: x in db.subjects && x.id == subjectId) && SubjectHasClasses(db, subjectId)
    ensures r.0 == Deleted <==> (exists x :: x in db.subjects && x.id == subjectId) && !SubjectHasClasses(db, subjectId)
    ensures r.0 != Deleted ==> r.1 == db
    ensures r.0 == Deleted ==> r.1 == WithoutSubject(db, subjectId)
    ensures r.0 == Deleted ==> forall x :: x in r.1.subjects <==> x in db.subjects && x.id != subjectId
  {
    if First(db.subjects, (x: Subject) => x.id == subjectId).None? then (DeleteNotFound, db)
    else if SubjectHasClasses(db, subjectId) then (DeleteRefused, db)
    else (Deleted, WithoutSubject(db, subjectId))
  }

  predicate TeachesClasses(db: Db, userId: int) {
    exists c :: c in db.classes && c.teacherUserId == Some(userId)
  }

  predicate IsTeacherRow(u: User, userId: int) {
    u.id == userId && u.role == Teacher
  }

  /** Deleting a user: the row goes, and the rows pointing at it lose the reference (the ORM's default). */
  function WithoutUser(db: Db, userId: int): (r: Db)
    ensures forall u :: u in r.users <==> u in db.users && u.id != userId
    ensures |r.classes| == |db.classes|
    ensures forall i :: 0 <= i < |r.classes| ==>
      && r.classes[i].teacherUserId != Some(userId)
      && r.classes[i].(teacherUserId := db.classes[i].teacherUserId) == db.classes[i]
      && (db.classes[i].teacherUserId != Some(userId) ==> r.classes[i] == db.classes[i])
    ensures r.attendance.Keys == db.attendance.Keys
    ensures forall k :: k in r.attendance ==>
      && r.attendance[k].recordedBy != Some(userId)
      && r.attendance[k].(recordedBy := db.attendance[k].recordedBy) == db.attendance[k]
      && (db.attendance[k].recordedBy != Some(userId) ==> r.attendance[k] == db.attendance[k])
    ensures !TeachesClasses(db, userId) ==> r.classes == db.classes
    ensures r.subjects == db.subjects && r.students == db.students && r.enrolled == db.enrolled
  {
    var classes := seq(|db.classes|, i requires 0 <= i < |db.classes| =>
      if db.classes[i].teacherUserId == Some(userId) then db.classes[i].(teacherUserId := None) else db.classes[i]);
    assert !TeachesClasses(db, userId) ==> classes == db.classes by {
      if !TeachesClasses(db, userId) {
        forall i | 0 <= i < |db.classes| ensures classes[i] == db.classes[i] {
          assert db.classes[i] in db.classes;
        }
      }
    }
    db.(users := Keep(db.users, (u: User) => u.id != userId),
        classes := classes,
        attendance := map k | k in db.attendance ::
          if db.attendance[k].recordedBy == Some(userId) then db.attendance[k].(recordedBy := None) else db.attendance[k])
  }

  /** `delete_teacher`: only a user with the TEACHER role is found, and one who teaches a class is kept. */
  function DeleteTeacher(db: Db, userId: int): (r: (DeleteResponse, Db))
    ensures r.0 == DeleteNotFound <==> forall u :: u in db.users ==> !IsTeacherRow(u, userId)
    ensures r.0 == DeleteRefused <==> (exists u :: u in db.users && IsTeacherRow(u, userId)) && TeachesClasses(db, userId)
    ensures r.0 == Deleted <==> (exists u :: u in db.users && IsTeacherRow(u, userId)) && !TeachesClasses(db, userId)
    ensures r.0 != Deleted ==> r.1 == db
    ensures r.0 == Deleted ==> r.1 == WithoutUser(db, userId) && r.1.classes == db.classes
  {
    if First(db.users, (u: User) => IsTeacherRow(u, userId)).None? then (DeleteNotFound, db)
    else if TeachesClasses(db, userId) then (DeleteRefused, db)
    else (Deleted, WithoutUser(db, userId))
  }

  predicate StudentHasAttendance(db: Db, studentId: int) {
    exists k :: k in db.attendance && k.studentId == studentId
  }

  predicate StudentHasEnrollments(db: Db, studentId: int) {
    exists p :: p in db.enrolled && p.0 == studentId
  }

  /** `delete_student` as meant: refused while the student has attendance or enrollments. */
  function DeleteStudent(db: Db, studentId: int): (r: (DeleteResponse, Db))
    ensures r.0 == DeleteNotFound <==> !HasStudent(db, studentId)
    ensures r.0 == DeleteRefused <==> HasStudent(db, studentId) && (StudentHasAttendance(db, studentId) || StudentHasEnrollments(db, studentId))
    ensures r.0 == Deleted <==> HasStudent(db, studentId) && !StudentHasAttendance(db, studentId) && !StudentHasEnrollments(db, studentId)
    ensures r.0 != Deleted ==> r.1 == db
    ensures r.0 == Deleted ==> r.1 == db.(students := Keep(db.students, (x: Student) => x.id != studentId))
    ensures r.0 == Deleted ==> forall x :: x in r.1.students <==> x in db.students && x.id != studentId
  {
    if !HasStudent(db, studentId) then (DeleteNotFound, db)
    else if StudentHasAttendance(db, studentId) || StudentHasEnrollments(db, studentId) then (DeleteRefused, db)
    else (Deleted, db.(students := Keep(db.students, (x: Student) => x.id != studentId)))
  }

  /** The relationship attributes a `Student` has. */
  const StudentAttributes: set<string> := {"attendances", "classes_enrolled_in"}

  /** The relationship attributes a `SubjectClass` has. */
  const SubjectClassAttributes: set<string> := {"attendances", "students_enrolled", "schedules", "subject_taught", "teacher_user"}

  /** `delete_student` as written: the guard reads `student.attendance_entries` first. */
  function DeleteStudentAsWritten(db: Db, studentId: int): DeleteResponse {
    if !HasStudent(db, studentId) then DeleteNotFound
    else if "attendance_entries" !in StudentAttributes then DeleteCrashed
    else if StudentHasAttendance(db, studentId) || StudentHasEnrollments(db, studentId) then DeleteRefused
    else Deleted
  }

  /** As written, no student can be deleted: every request for an existing student fails in the guard. */
  lemma DeleteStudentAsWrittenNeverDeletes(db: Db, studentId: int)
    ensures HasStudent(db, studentId) ==> DeleteStudentAsWritten(db, studentId) == DeleteCrashed
    ensures HasStudent(db, studentId) && !StudentHasAttendance(db, studentId) && !StudentHasEnrollments(db, studentId)
      ==> DeleteStudent(db, studentId).0 == Deleted
  {
  }

  predicate ClassHasStudents(db: Db, classId: int) {
    exists p :: p in db.enrolled && p.1 == classId
  }

  predicate ClassHasAttendance(db: Db, classId: int) {
    exists k :: k in db.attendance && k.classId == classId
  }

  /** `delete_subject_class` as meant: refused while students are enrolled or attendance exists. */
  function DeleteSubjectClass(db: Db, classId: int): (r: (DeleteResponse, Db))
    ensures r.0 == DeleteNotFound <==> !HasClass(db, classId)
    ensures r.0 == DeleteRefused <==> HasClass(db, classId) && (ClassHasStudents(db, classId) || ClassHasAttendance(db, classId))
    ensures r.0 == Deleted <==> HasClass(db, classId) && !ClassHasStudents(db, classId) && !ClassHasAttendance(db, classId)
    ensures r.0 != Deleted ==> r.1 == db
    ensures r.0 == Deleted ==> r.1 == db.(classes := Keep(db.classes, (c: SubjectClass) => c.id != classId))
    ensures r.0 == Deleted ==> forall c :: c in r.1.classes <==> c in db.classes && c.id != classId
  {
    if !HasClass(db, classId) then (DeleteNotFound, db)
    else if ClassHasStudents(db, classId) || ClassHasAttendance(db, classId) then (DeleteRefused, db)
    else (Deleted, db.(classes := Keep(db.classes, (c: SubjectClass) => c.id != classId)))
  }

  /**
   * `delete_subject_class` as written: `students_enrolled.first()` is read
   * first and short-circuits; otherwise `attendance_records` is read.
   */
  function DeleteSubjectClassAsWritten(db: Db, classId: int): DeleteResponse {
    if !HasClass(db, classId) then DeleteNotFound
    else if ClassHasStudents(db, classId) then DeleteRefused
    else if "attendance_records" !in SubjectClassAttributes then DeleteCrashed
    else if ClassHasAttendance(db, classId) then DeleteRefused
    else Deleted
  }

  /** As written, a class is refused while it has students and otherwise fails: it is never deleted. */
  lemma DeleteSubjectClassAsWrittenNeverDeletes(db: Db, classId: int)
    ensures HasClass(db, classId) ==>
      DeleteSubjectClassAsWritten(db, classId) == (if ClassHasStudents(db, classId) then DeleteRefused else DeleteCrashed)
    ensures DeleteSubjectClassAsWritten(db, classId) != Deleted
  {
  }

  // ---- edit_user_admin ----

  /**
   * The role an edit stores: an ADMIN editing themselves keeps their role
   * unless they chose ADMIN or SUPERUSER; a superuser's role changes only at a
   * superuser's hand; otherwise the chosen role.
   */
  function EditedRole(actor: User, target: User, chosen: UserRole): UserRole {
    if target.id == actor.id && actor.role == Admin && chosen !in {Admin, Superuser} then target.role
    else if target.role == Superuser && !actor.IsSuperuser() then target.role
    else chosen
  }

  /**
   * No administrator ends an edit of their own account below ADMIN; a
   * superuser's role is kept when a non-superuser edits it; anyone else gets
   * the chosen role. An administrator may still raise themselves to SUPERUSER.
   */
  lemma EditedRoleRules(actor: User, target: User, chosen: UserRole)
    requires target.id == actor.id ==> target == actor
    ensures target.id == actor.id && actor.role == Admin ==> EditedRole(actor, target, chosen) in {Admin, Superuser}
    ensures target.role == Superuser && !actor.IsSuperuser() ==> EditedRole(actor, target, chosen) == Superuser
    ensures target.id != actor.id && (target.role != Superuser || actor.IsSuperuser()) ==> EditedRole(actor, target, chosen) == chosen
    ensures target.id == actor.id && actor.role == Admin && chosen == Superuser ==> EditedRole(actor, target, chosen) == Superuser
  {
  }

  /**
   * The request as `edit_user_admin` sees it: the method, the raw `role`
   * entry of the posted form (None on a GET), and the form's field data.
   */
  datatype EditRequest = EditRequest(isPost: bool, rawRole: Option<string>, input: UserAdminInput)

  datatype EditResponse = EditNotFound | EditForbidden | EditCrashed | EditFormPage | EditSaved

  /** The pre-check as written: it raises ValueError when the raw role is missing or not a role value. */
  predicate EditPrecheckRaises(actor: User, target: User, rawRole: Option<string>) {
    target.id == actor.id && target.role == Admin && (rawRole.None? || RoleFromValue(rawRole.value).None?)
  }

  /** As written, an administrator cannot even open their own edit page: the GET raises. */
  lemma EditOwnPageAsWrittenRaises(admin: User, input: UserAdminInput)
    requires admin.role == Admin
    ensures EditPrecheckRaises(admin, admin, EditRequest(false, None, input).rawRole)
    ensures forall r: UserRole :: !EditPrecheckRaises(admin, admin, Some(r.Value()))
  {
    forall r: UserRole ensures !EditPrecheckRaises(admin, admin, Some(r.Value())) {
      RoleValueRoundTrip(r);
    }
  }

  /**
   * `edit_user_admin` as meant for `actor` (the current user) on the user
   * found by id, if any: non-superusers may not touch a superuser; a valid
   * POST assigns the posted fields in turn, then the role under the role
   * rule, then the active flag, reverted for one's own account, then the
   * password when one was entered. `saved` is the row stored by the commit.
   */
  method EditUserAdmin(actor: User, target: Option<User>, users: seq<User>, req: EditRequest, emailOk: string -> bool)
    returns (resp: EditResponse, saved: Option<User>)
    requires target.Some? && target.value.id == actor.id ==> target.value == actor
    ensures resp == EditNotFound <==> target.None?
    ensures resp == EditForbidden <==> target.Some? && target.value.role == Superuser && !actor.IsSuperuser()
    ensures resp == EditSaved <==>
      target.Some? && !(target.value.role == Superuser && !actor.IsSuperuser()) && req.isPost
      && UserAdminFormValid(req.input, users, Some(target.value.id),
                            EditPasswordChains(req.input.password).0, EditPasswordChains(req.input.password).1, emailOk)
    ensures resp != EditCrashed
    ensures saved.Some? <==> resp == EditSaved
    ensures saved.Some? ==>
      && req.input.username == Some(saved.value.username) && req.input.email == Some(saved.value.email)
      && saved.value.id == target.value.id
      && saved.value.firstName == req.input.firstName && saved.value.lastName == req.input.lastName
      && req.input.role.Some? && RoleFromValue(req.input.role.value).Some?
      && saved.value.role == EditedRole(actor, target.value, RoleFromValue(req.input.role.value).value)
      && saved.value.isActive == (req.input.isActive || target.value.id == actor.id)
      && saved.value.secret == (if req.input.password.Some? && req.input.password.value != "" then req.input.password else target.value.secret)
  {
    saved := None;
    if target.None? {
      return EditNotFound, None;
    }
    var t := target.value;
    if t.role == Superuser && !actor.IsSuperuser() {
      return EditForbidden, None;
    }
    var chains := EditPasswordChains(req.input.password);
    if !(req.isPost && UserAdminFormValid(req.input, users, Some(t.id), chains.0, chains.1, emailOk)) {
      return EditFormPage, None;
    }
    UserAdminIdentityFields(req.input, users, Some(t.id), emailOk);
    RoleFieldAcceptsRoleValues(req.input.role);
    var u := t;
    u := u.(username := req.input.username.value, email := req.input.email.value);
    u := u.(firstName := req.input.firstName, lastName := req.input.lastName);
    var chosen := RoleFromValue(req.input.role.value).value;
    if t.id == actor.id && actor.role == Admin && chosen !in {Admin, Superuser} {
      // refused: the role stays
    } else if t.role == Superuser && !actor.IsSuperuser() {
      // refused: the role stays
    } else {
      u := u.(role := chosen);
    }
    u := u.(isActive := req.input.isActive);
    if t.id == actor.id && !req.input.isActive {
      u := u.(isActive := true);
    }
    if req.input.password.Some? && req.input.password.value != "" {
      u := u.(secret := req.input.password);
    }
    resp, saved := EditSaved, Some(u);
  }

  // ---- delete_user_admin ----

  datatype DeleteUserResponse = UserNotFound | CannotDeleteSelf | SuperuserProtected | TeacherHasClasses | UserDeleted

  /**
   * `delete_user_admin`: one's own account, a superuser (unless the actor is
   * one) and a teacher with classes are kept; anyone else is deleted.
   */
  function DeleteUserAdmin(actor: User, db: Db, userId: int): (r: (DeleteUserResponse, Db))
    requires UserIdsUnique(db.users)
    ensures r.0 == UserNotFound <==> forall u :: u in db.users ==> u.id != userId
    ensures r.0 != UserNotFound && userId == actor.id ==> r.0 == CannotDeleteSelf
    ensures r.0 == UserDeleted <==>
      (exists u :: u in db.users && u.id == userId) && userId != actor.id
      && (forall u :: u in db.users && u.id == userId ==> u.role != Superuser || actor.IsSuperuser())
      && (forall u :: u in db.users && u.id == userId ==> u.role != Teacher || !TeachesClasses(db, userId))
    ensures r.0 != UserDeleted ==> r.1 == db
    ensures r.0 == UserDeleted ==> r.1 == WithoutUser(db, userId)
  {
    var found := First(db.users, (u: User) => u.id == userId);
    if found.None? then (UserNotFound, db)
    else
      if userId == actor.id then (CannotDeleteSelf, db)
      else if found.value.role == Superuser && !actor.IsSuperuser() then (SuperuserProtected, db)
      else if found.value.role == Teacher && TeachesClasses(db, userId) then (TeacherHasClasses, db)
      else (UserDeleted, WithoutUser(db, userId))
  }
}
