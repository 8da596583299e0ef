# Student attendance app: a verified model of its rules

This project is a Dafny model of the rules inside a Flask school-attendance
application. The application lets:

- staff manage students, subjects, classes and enrollments, and import
  students and classes from CSV files;
- teachers mark the attendance of their classes, one date at a time, and
  view a per-student report;
- administrators manage user accounts and roles.

The web framework, the ORM and the templates are not modelled. What remains
is modelled on values and proved:

- **Attendance** (`TeacherRoutes`). The weekday a free-text schedule names.
  The date a marking page opens on. The batch upsert of attendance records,
  keyed by (student, class, date, session time), in a class
  `AttendanceRegister` whose `MarkBatch` is all-or-nothing. The form's
  prefill. The report's per-student tally.
- **Access gates** (`Decorators`, `Models`). The five view decorators as
  decision functions (redirect to login, 403, or the handler's own
  response). The `User.is_*` role properties.
- **Data integrity** (`AdminRoutes`, `AdminForms`, `MainForms`,
  `AdminImports`):
  - enrollment as a set union with a count of new members, and
    unenrollment as a guarded removal;
  - the referential guards in front of every delete;
  - the rules for editing and deleting user accounts;
  - the case-insensitive uniqueness validators, which leave out the record
    being edited;
  - the end-date rule and the form validator chains;
  - the per-row normalisation and counting of the two CSV imports, both as
    the code reads an empty cell (the text "nan") and as it evidently means to
    (blank).
- **Supporting semantics** (`Text`, `Dates`, `Validators`, `Queries`).
  Python's `strip`/`lower`, SQLite's `ILIKE`, Python's ordinal dates and
  weekdays, the two `strptime` formats, the way WTForms runs a validator
  chain, and `.first()` on a table in primary-key order.

Tables are sequences in primary-key order, where the application reads the
first match or sorts rows. They are finite maps where a unique key decides
the row: attendance by its composite key.
Enrollments are a set of (student id, class id) pairs, so each pair occurs at
most once.

Several places in the source do not do what they evidently intend. The model
follows the intent, keeps each fault beside it as an "as written" member, and
lists each one under "## Findings".

Some behaviour one might expect is not what the code does, and the model
follows the code:

- Only the class's assigned teacher may mark attendance. The view sits
  behind `teacher_required`, so staff and admins are refused.
- The attendance uniqueness constraint includes a nullable session time, so
  it does not reject duplicates when the session time is NULL.
- The code has no month-range expansion of session dates, no default
  statuses taken from holidays and no timetable grid.

## Model

| member | source | states |
|---|---|---|
| TeacherRoutes.DayOfAbbreviation | app/teacher/routes.py:36-39 | The weekday table maps exactly the seven keys `mon`..`sun`, each to its position 0..6; every other key gives None. |
| TeacherRoutes.ParseScheduledDay | app/teacher/routes.py:32-39 | A parsed schedule always yields a weekday number from 0 to 6. |
| TeacherRoutes.ParseScheduledDayMeaning | app/teacher/routes.py:32-39 | A schedule names weekday w exactly when it has at least 3 characters and its first three, lower-cased, are the w-th abbreviation. A missing or shorter text gives None. Characters after the third never change the result. |
| TeacherRoutes.DefaultClassDate | app/teacher/routes.py:56-62 | With no scheduled weekday the default is today. Otherwise it has the scheduled weekday and lies in the Monday-to-Sunday week that contains today. |
| TeacherRoutes.SelectDate | app/teacher/routes.py:64-79 | A non-empty date argument is kept exactly when it parses as `%Y-%m-%d` and either no weekday is scheduled or its weekday matches. Otherwise the page falls back to the default date with a notice, `BadDateFormat` when the text does not parse. With no argument, the page uses the posted date or else the default. |
| TeacherRoutes.SelectedDateOnScheduledWeekday | app/teacher/routes.py:64-79 | With a scheduled weekday, a page opened with any date argument works on a date of that weekday. |
| TeacherRoutes.BatchKeySet | app/teacher/routes.py:86-104 | After the batch loop, the table's keys are the old keys plus one key (student, class, date, no session time) per submitted student. |
| TeacherRoutes.BatchCountsInserts | app/teacher/routes.py:93-104 | The batch inserts exactly one new row per submitted student that had no record, so the next row id grows by that number. |
| TeacherRoutes.BatchLeavesOtherKeys | app/teacher/routes.py:86-104 | Records under keys the batch does not touch are unchanged. |
| TeacherRoutes.BatchStoresSubmittedValues | app/teacher/routes.py:93-103 | Each submitted student's record holds the status and remarks of that student's last entry, with the actor as recorder. An existing record keeps its row id. |
| TeacherRoutes.BatchKeepsIdsDistinct | app/teacher/routes.py:99-104 | Row ids stay below the next id and distinct across keys. |
| TeacherRoutes.BatchIdempotent | app/teacher/routes.py:86-105 | Saving the same batch a second time returns the same table and next id: no row is added and no value changes. |
| TeacherRoutes.AttendanceRegister.MarkBatch | app/teacher/routes.py:85-110 | The batch is saved exactly when no step and not the commit raises. A saved batch leaves the table as the batch applied to the old table. A raising step leaves table and next id as they were. The register keeps one record per key and distinct row ids. |
| TeacherRoutes.AttendanceRegister.MarkAttendance | app/teacher/routes.py:44-126 | 404 exactly when the class does not exist. A redirect exactly when the actor is not the class's teacher. The view works on the date `MarkingDate` selects from the argument, the posted date and the default. It saves exactly when the class's teacher sends a valid submission for a date on the scheduled weekday and no step raises. A save stores the batch on that date and redirects to it. It reports the wrong weekday and the failed save each exactly when they happened. Any answer but the save changes nothing. A form page has one prefilled row per active enrolled student. |
| TeacherRoutes.ActiveRoster | app/teacher/routes.py:114 | The roster is the active enrolled students, each exactly as often as enrolled, sorted by (last name, first name). |
| TeacherRoutes.PrefillEntries | app/teacher/routes.py:112-126 | The old rows are dropped. The form then has exactly one row per roster student, in roster order, with the stored status and remarks or else `present`. |
| TeacherRoutes.PrefillShowsSavedBatch | app/teacher/routes.py:112-126 | After a saved batch, each submitted student's row shows their last submitted status and remarks. A student neither submitted nor recorded before shows `present`. |
| TeacherRoutes.PrefillAsWrittenRaisesAfterSave | app/teacher/routes.py:107-122 | With the lookup of lines 116-118 corrected but line 122 as written, the page a save redirects to raises whenever a roster student was submitted, because it reads `.value` of a stored string. As meant, that student's row shows the last submitted status and remarks. |
| TeacherRoutes.CountRecordByValue | app/teacher/routes.py:180-190 | Counting one record adds one session, plus one to the counter its status names, if any. |
| TeacherRoutes.TallyCountsStatuses | app/teacher/routes.py:179-190 | Each status counter equals the number of the student's records with that status. The session count equals all the student's records. So present + absent + late + excused never exceeds the sessions recorded. |
| TeacherRoutes.TallyAsWrittenCountsNoStatus | app/teacher/routes.py:183-190 | With the query at line 159 corrected but these lines as written, comparing string statuses with enum members never succeeds: all four counters stay 0 while sessions are still counted. |
| TeacherRoutes.ReportTally | app/teacher/routes.py:162-190 | Counters exist for exactly the roster students. Each holds the tally of that student's records; other students' records are ignored. |
| TeacherRoutes.SessionDatesBounded | app/teacher/routes.py:176 | There are no more distinct session dates than records, and each one is some record's date. |
| TeacherRoutes.ReportAuthorizedForTeachers | app/teacher/routes.py:151-153 | For a teacher, the report's guard admits them exactly when the teacher is assigned to the class. |
| TeacherRoutes.ClassAttendanceReport | app/teacher/routes.py:140-201 | 404 exactly when the class is missing. A refusal exactly when the guard fails. Otherwise the summary is keyed by exactly the active enrolled students, holds each one's tally, and counts the distinct session dates. |
| TeacherRoutes.WrittenQueriesRaise | app/teacher/routes.py:90-92 | The lookups on `class_id` and `attendance_date` name no attribute of `Attendance` and raise. The same lookups on `subject_class_id` and `date` resolve. |
| Models.AllRolesListsEveryRoleOnce | app/models.py:10-14 | Iterating over the role enum yields every member exactly once. |
| Models.RoleFromValue | app/models.py:10-14 | `UserRole(s)` gives the member whose value is s, and None (ValueError) when no member has that value. |
| Models.RoleValueRoundTrip | app/models.py:10-14 | Converting a member's value back gives the member. |
| Models.GetChoices | app/models.py:15-17 | `get_choices` yields one pair per member. |
| Models.GetChoicesLists | app/models.py:15-17 | The choices are exactly ("superuser","Superuser"), ("admin","Admin"), ("teacher","Teacher"), ("staff","Staff"), in declaration order, with the title-cased names. |
| Models.ChoiceValuesNameRoles | app/models.py:15-17 | The value of the i-th choice converts back to the i-th member. |
| Models.TitleOfCapitalWord | app/models.py:17 | `title()` of a word in capitals keeps its first letter and lower-cases the rest. |
| Models.RolePredicates | app/models.py:72-83 | `is_admin` holds exactly for ADMIN and SUPERUSER. `is_superuser` implies `is_admin`. `is_teacher` and `is_staff` each hold for exactly one role. No admin is a teacher or staff, and no teacher is staff. Every user is an admin, a teacher or staff. |
| Models.LegacyStatusFromValue | app/models.py:22-26 | `AttendanceStatus(s)` gives a member with value s, or None where Python raises. |
| Models.StatusVocabulary | app/models.py:22-38 | The status vocabulary is exactly the six choices. The legacy enum accepts exactly the first four, so it rejects both holiday statuses. |
| Models.NullSessionDuplicatesAdmitted | app/models.py:182-184 | Two keys without a session time never clash under the UNIQUE constraint, since NULL differs from NULL. |
| Models.SortByName | app/admin/forms.py:16-20 | `order_by(last_name, first_name)` yields a permutation of the rows, sorted by (last name, first name). |
| Models.InsertByName | app/admin/forms.py:16-20 | Inserting into a sorted sequence keeps it sorted and adds exactly that student. |
| Models.ActiveOnly | app/admin/forms.py:16 | `filter_by(is_active=True)` keeps exactly the active students, each as often as before. |
| Queries.KeepAppend | app/teacher/routes.py:114 | Filtering keeps the rows' order: the matches in a + b are the matches in a followed by those in b. |
| Queries.First | app/admin/forms.py:158-161 | `first()` gives a matching row, and None exactly when no row matches. |
| Queries.FirstIsEarliest | app/admin/forms.py:158-161 | When some row matches, `first()` is the earliest matching row in primary-key order. |
| Decorators.RoleRequired | app/decorators.py:8-40 | An anonymous user, and only an anonymous user, is redirected to login with the path. A user without a role is forbidden. A list admits exactly the listed roles, and a single role admits exactly that role. An admitted request returns the handler's own response to the original arguments. |
| Decorators.SuperuserRequired | app/decorators.py:43-52 | It redirects exactly the anonymous user and admits exactly SUPERUSER. An admitted request returns the handler's response. |
| Decorators.AdminRequired | app/decorators.py:54-68 | It redirects exactly the anonymous user and admits exactly ADMIN and SUPERUSER. An admitted request returns the handler's response. |
| Decorators.TeacherRequired | app/decorators.py:70-82 | It redirects exactly the anonymous user and admits exactly TEACHER. An admitted request returns the handler's response. |
| Decorators.StaffRequired | app/decorators.py:84-99 | It redirects exactly the anonymous user and admits exactly STAFF, ADMIN and SUPERUSER. An admitted request returns the handler's response. |
| Decorators.GatesNest | app/decorators.py:43-99 | Each named gate admits a user exactly when the matching `User.is_*` property holds (staff: `is_staff` or `is_admin`). The admitted sets nest superuser within admin within staff. The teacher and staff gates split the users between them. |
| Decorators.NamedGatesAreRoleRequired | app/decorators.py:8-40 | `role_required` with SUPERUSER, TEACHER, [ADMIN, SUPERUSER] or [STAFF, ADMIN, SUPERUSER] behaves exactly as the corresponding named gate. |
| AdminRoutes.EnrollStudents | app/admin/routes.py:354-369 | The enrollments become the old ones together with the selected pairs. The added count is the number of distinct selected students not already enrolled. The session is committed exactly when that count is positive, and otherwise nothing changes. |
| AdminRoutes.SelectionAllNew | app/admin/forms.py:98-100 | A valid selection from the enrollment picker holds only students not yet enrolled, so every selected student is added and the count is positive. |
| AdminRoutes.ChoiceNotEnrolled | app/admin/forms.py:15-20 | A student the picker offers for an existing class is not enrolled in it. |
| AdminRoutes.ManageEnrollments | app/admin/routes.py:347-374 | 404 exactly for an unknown class. The form page is shown exactly when no valid submission arrives. "Nothing to enroll" is answered exactly when a valid submission adds no one, and for a class with a non-zero id a valid submission is always saved. A save adds the selected pairs with a positive count. Every other answer leaves the tables unchanged. |
| AdminRoutes.Unenroll | app/admin/routes.py:379-392 | 404 exactly when the class or the student is unknown. The view unenrolls exactly when the pair is enrolled, and then removes that pair and nothing else. Otherwise nothing changes. |
| AdminRoutes.EnrollThenUnenroll | app/admin/routes.py:356-383 | Enrolling a student who was not enrolled and then unenrolling them restores the original enrollments. |
| AdminRoutes.DeleteSubject | app/admin/routes.py:103-115 | 404 exactly for an unknown subject. The delete is refused, with no change, exactly when a class uses the subject. It deletes exactly when the subject exists and no class uses it, and then only that subject goes. |
| AdminRoutes.WithoutUser | app/admin/routes.py:690-691 | Deleting a user removes that user's row. Classes and attendance rows keep their count and keys. Each loses its reference to the user and is otherwise unchanged. A row that did not reference the user is unchanged. Classes are untouched when the user taught none. The other tables are unchanged. |
| AdminRoutes.DeleteTeacher | app/admin/routes.py:182-194 | Only a TEACHER user is found (404 otherwise). The delete is refused, with no change, exactly when that teacher teaches a class. It deletes exactly when the teacher teaches none, and then the user goes and the classes are unchanged. |
| AdminRoutes.DeleteStudent | app/admin/routes.py:257-269 | 404 exactly for an unknown student. The delete is refused, with no change, exactly when the student has attendance or enrollments. It deletes exactly when the student has neither, and then only that student goes. |
| AdminRoutes.DeleteStudentAsWrittenNeverDeletes | app/admin/routes.py:259 | As written, every delete of an existing student fails in the guard, even one the intended guard would allow. |
| AdminRoutes.DeleteSubjectClass | app/admin/routes.py:330-342 | 404 exactly for an unknown class. The delete is refused, with no change, exactly when students are enrolled or attendance exists. It deletes exactly when the class has neither, and then only that class goes. |
| AdminRoutes.DeleteSubjectClassAsWrittenNeverDeletes | app/admin/routes.py:332 | As written, a class with students is refused and any other class fails in the guard, so no class is ever deleted. |
| AdminRoutes.EditedRoleRules | app/admin/routes.py:626-633 | An ADMIN editing their own account ends as ADMIN or SUPERUSER, and may still raise themselves to SUPERUSER. A superuser's role is kept when a non-superuser edits it. Everyone else gets the chosen role. |
| AdminRoutes.EditOwnPageAsWrittenRaises | app/admin/routes.py:609-610 | As written, an ADMIN opening their own edit page (a GET, with no role posted) raises ValueError. A posted role value never raises. |
| AdminRoutes.EditUserAdmin | app/admin/routes.py:597-658 | 404 exactly for an unknown user. A non-superuser is refused on a superuser. The edit is saved exactly for a valid POST, and never crashes. The saved row has the posted username, email and names, and the role under the role rule. It stays active when the user edits their own account. Its password changes only when one was entered. |
| AdminRoutes.DeleteUserAdmin | app/admin/routes.py:664-699 | 404 exactly for an unknown user. Deleting one's own account is refused. The user is deleted exactly when found, not the actor, not a superuser unless the actor is one, and not a teacher with classes. A refusal changes nothing, and a deletion is `WithoutUser`. |
| AdminImports.TextOrNoneMeaning | app/admin/routes.py:418-422 | An optional cell gives nothing exactly when the column is absent or the cell is all whitespace, or, read as meant, is "nan". Otherwise it gives the cell between its leading and trailing whitespace runs, which is non-empty with no whitespace at either end. |
| AdminImports.EmptyCellReadsNan | app/admin/routes.py:418-422 | As written, an empty optional cell keeps the text "nan". As meant, it gives nothing. |
| AdminImports.FlagRules | app/admin/routes.py:429-430 | A flag cell is true exactly when its stripped text equals `true`, `1` or `yes`, ignoring case. |
| AdminImports.ActiveByDefault | app/admin/routes.py:429 | Without an `is_active` column a student is active. |
| AdminImports.NotInArrearsByDefault | app/admin/routes.py:430 | Without an `is_in_arrears` column a student is not in arrears. |
| AdminImports.EmptyCellClearsFlag | app/admin/routes.py:429-430 | An empty cell, which reads `nan`, clears the flag whatever the default. |
| AdminImports.ReadDateCell | app/admin/routes.py:423-428 | A date read from a cell is a valid calendar date. |
| AdminImports.ReadDateCellRules | app/admin/routes.py:423-428 | A cell gives no date exactly when it is absent, blank or `nan` in any case. Otherwise its date is the `%Y-%m-%d` reading, or failing that the `%d/%m/%Y` reading. It is bad exactly when neither reads. |
| AdminImports.StudentRowSkips | app/admin/routes.py:415-428 | A row is skipped for a missing field exactly when an ID number or name is empty; as meant, "nan" is empty too. Then for a duplicate ID number exactly when it is stored. Then for a duplicate email exactly when some student's email is ILIKE it. Then for a bad date of birth exactly when the cell does not read. The checks go in this order. |
| AdminImports.StudentRowImported | app/admin/routes.py:415-432 | An imported row becomes a student with the next key, the stripped ID number and names, and an unused ID number and email. Its optional columns are blank-to-None, its date of birth is read from the cell, and `is_active` defaults true while `is_in_arrears` defaults false. |
| AdminImports.EmptyIdNumberAsWritten | app/admin/routes.py:415-416 | As written, a row with an empty ID number cell is imported with the ID number "nan". As meant, it is skipped for a missing field. |
| AdminImports.EmptyEmailsClashAsWritten | app/admin/routes.py:418-420 | As written, once a student is stored with the email "nan", every later row with an empty email cell is refused as a duplicate. As meant, an empty email cell gives no email. |
| AdminImports.ImportStudentsCsv | app/admin/routes.py:412-434 | Under either cell reading, the code's or the intended one, the loop's final state is the rows applied one after another. The session is committed exactly when some row was imported. |
| AdminImports.StudentImportCounts | app/admin/routes.py:412-433 | Imported + skipped equals the number of rows, and each skip is reported once with its line number. The stored students stay in front, each import takes the next key, and nothing changes when nothing is imported. |
| AdminImports.StudentImportKeepsKeys | app/admin/routes.py:417-432 | The import keeps student ID numbers unique and emails distinct up to case. |
| AdminImports.FindSubject | app/admin/routes.py:465-468 | A subject is found exactly when one's name matches ILIKE, or else the text is an integer key SQLite can bind that a subject has. The lookup raises exactly when no name matches and the key does not fit SQLite's INTEGER. A name match always wins over the key. |
| AdminImports.FindTeacher | app/admin/routes.py:474-478 | A teacher is found exactly when a TEACHER user's username or email matches ILIKE, or else the text is a bindable key of a TEACHER user. The lookup raises exactly when no name matches and the key does not fit. What is found is a stored TEACHER user, and a name match wins over the key. |
| AdminImports.ReadTeacher | app/admin/routes.py:470-479 | An absent, blank or "nan" cell gives no teacher. Otherwise the result is "not found" exactly when no TEACHER user has the name or the key, and a raising lookup exactly when the key overflows. A found id belongs to a stored TEACHER user, the name match's when there is one, or else the key. |
| AdminImports.OverflowingKeySkipsRow | app/admin/routes.py:465-498 | A row whose subject, or whose teacher once the subject is found, names nothing and holds a key SQLite cannot bind is skipped by the row's exception handler. |
| AdminImports.LongKeysOverflow | app/admin/routes.py:467 | A key of 20 or more digits without a leading zero, such as `99999999999999999999`, is read by `int()` but does not fit SQLite's INTEGER. |
| AdminImports.ReadClassDates | app/admin/routes.py:483-495 | The dates kept never have the end before the start. Bad dates are reported but never skip the row. |
| AdminImports.ClassRowIssues | app/admin/routes.py:463-497 | A skipped class row reports its one skip reason last. An imported row reports no skip reason. |
| AdminImports.ClassRowImported | app/admin/routes.py:463-497 | An imported class has the next key and the stripped name, which no stored class has up to case. It has the subject the row names and the teacher the teacher column gives, whose lookup did not raise. "Teacher not found" is reported exactly when the column names no teacher. It also has ordered dates and blank-to-None optional text. |
| AdminImports.ImportClassesCsv | app/admin/routes.py:460-499 | Under either cell reading, the loop's final state is the rows applied one after another. The session is committed exactly when some row was imported. |
| AdminImports.ClassImportCounts | app/admin/routes.py:460-498 | Imported + skipped equals the number of rows. The stored classes stay in front and each import takes the next key. |
| AdminImports.ClassImportSkips | app/admin/routes.py:460-498 | The number of skip reasons reported equals the number of rows skipped. |
| AdminImports.ClassImportKeepsNames | app/admin/routes.py:480 | The import keeps class names distinct up to case. |
| AdminImports.ClassImportKeepsDates | app/admin/routes.py:495 | The import keeps every class's end date not before its start date. |
| AdminForms.StudentsNotInClass | app/admin/forms.py:15-20 | With no class id, or an unknown class, the picker lists all active students. Otherwise it lists the active students not enrolled in the class. Each appears as often as stored, sorted by (last name, first name). |
| AdminForms.StudentEmails | app/admin/forms.py:74 | Only students with an email take part in the email lookup. |
| AdminForms.UniquenessMeaning | app/admin/forms.py:156-172 | Another row holding the entered text up to case always makes it taken. Without wildcards in the text, nothing else does. The record being edited never counts. |
| AdminForms.UserUniquenessExcludesSelf | app/admin/forms.py:156-172 | Another user's username or email, in any case, is refused. A user alone in the table may keep their own. |
| AdminForms.StudentUniquenessExcludesSelf | app/admin/forms.py:68-76 | Another student's ID number, or non-empty email, in any case, is refused. An empty email is never looked up. |
| AdminForms.EndDateRule | app/admin/forms.py:91-93 | The end date is refused exactly when both dates are given and it is earlier. Equal dates pass, and a missing date always passes. |
| AdminForms.UserAdminFormValidators.NewUserForm | app/admin/forms.py:151-153 | A form for a new user puts `DataRequired` at the front of the shared password and confirmation lists, and validates with the lists as they then are. |
| AdminForms.PasswordRules | app/admin/forms.py:142-153 | A new user needs a password of at least 6 characters and an equal, non-blank confirmation, however many `DataRequired` the shared lists hold. An edit checks length and match only when a password is typed. |
| AdminForms.RoleFieldAcceptsRoleValues | app/admin/forms.py:174-179 | The role field accepts exactly the strings that are a role's value. |
| AdminForms.UserAdminIdentityFields | app/admin/forms.py:116-119 | The username passes exactly when it is not blank, 3 to 64 characters long and not taken. The email passes exactly when it is not blank, well formed, at most 120 characters and not taken. |
| AdminForms.HolidayFormRules | app/admin/forms.py:183-201 | A holiday passes exactly when its name is not blank and 3 to 100 characters long, its type is one of the five choices, its date parses, and any description is at most 500 characters. |
| MainForms.ProfileEmailRule | app/main/forms.py:22-27 | The user's own email, in any case, passes without a lookup. Another user's email, in any case, is refused. For text without wildcards, nothing else is refused. |
| MainForms.ProfileFormRules | app/main/forms.py:12-27 | The profile passes exactly when the email is given, well formed, at most 120 characters and accepted by the email rule. Each name is blank or at most 64 characters. |
| MainForms.ChangePasswordRules | app/main/forms.py:29-42 | A change passes exactly when all three fields are filled and the current password checks out. The new password also needs at least 6 characters and must equal its confirmation. |
| Validators.RepeatedDataRequired | app/admin/forms.py:152-153 | Any positive number of leading `DataRequired` validators gives the same verdict as one. |
| Dates.Weekday | app/teacher/routes.py:61 | `weekday()` is a number from 0 to 6. |
| Dates.WeekStart | app/teacher/routes.py:61-62 | The Monday that starts a date's week is a Monday less than 7 days before or on the date. |
| Dates.WeekdayAddDays | app/teacher/routes.py:61-62 | Adding n days moves the weekday by n modulo 7. |
| Dates.OrdinalOrderIsCalendarOrder | app/admin/routes.py:495 | Comparing dates by ordinal is comparing them by (year, month, day). |
| Dates.ParseYmd | app/teacher/routes.py:67 | A successful `%Y-%m-%d` parse gives a valid calendar date. |
| Dates.ParseYmdReadsFields | app/teacher/routes.py:67 | A text of three dash-separated fields parses exactly when the first is a four-digit year, the second a month and the third a day that together name a real date, and gives that date. |
| Dates.ParseYmdShape | app/teacher/routes.py:67 | Every text the `%Y-%m-%d` parse accepts consists of exactly three fields joined by dashes. |
| Dates.ParseDmy | app/admin/routes.py:427 | A `%d/%m/%Y` parse, when it succeeds, gives a valid date. |
| Dates.EitherFormatReadsBoth | app/admin/routes.py:425-427 | The import's date rule reads a text exactly when one of the two formats does. It gives the `%Y-%m-%d` reading of a text in that format and the `%d/%m/%Y` reading of a text in that one. |
| Dates.DmyTextIsNotYmd | app/admin/routes.py:425-427 | A text that reads as DD/MM/YYYY never reads as `%Y-%m-%d`, so the fallback always runs for it. |
| Dates.ParseFormatYmd | app/teacher/routes.py:107 | A date written with `strftime('%Y-%m-%d')`, as the redirect after a save does, parses back to the same date. |
| Dates.ParseFormatDmy | app/admin/routes.py:427 | A date written as DD/MM/YYYY parses back to the same date, also through the import's two-format rule. |
| Text.StripMeaning | app/admin/routes.py:415 | `strip()` gives the part of the string between a run of leading and a run of trailing whitespace, and that part has no whitespace at either end. |
| Text.StripEmptyIffAllSpace | app/admin/routes.py:415-416 | A string strips to nothing exactly when it is all whitespace. |
| Text.ILikeLiteral | app/admin/forms.py:158 | Without `%` or `_` in the pattern, ILIKE is exactly case-insensitive equality. |
| Text.ILikeCaseVariant | app/admin/forms.py:158 | A value always matches a pattern equal to it up to case. |
| Text.UnderscoreMatchesAnyCharacter | app/admin/forms.py:158 | `_` in an entered value matches any one character, so a value can be refused although no row equals it up to case. |
| Text.ParseInt | app/admin/routes.py:467 | `int()` of a stripped text succeeds exactly on an optional sign and one or more ASCII digits, and gives the signed decimal value of the digits. |

## Left out

- Flask routing, templates, `flash` messages and CSRF tokens. Only each view's outcome is modelled, as a datatype.
- The clock. `date.today()` is a parameter, and the `created_at`, `updated_at` and `recorded_at` timestamps are not modelled.
- Password hashing and `validate_current_password`. Both are foreign crypto calls, so the stored password is a plain `secret` and the current-password verdict is a parameter.
- The `Email()` syntax check, which delegates to the `email_validator` package. Its verdict is a parameter.
- `pandas.read_csv`, header normalisation and the missing-required-column refusal. These are library I/O. A row arrives as the text of its cells.
- AdminImports.ImportStudentsCsv: the per-row `except Exception` handlers of both imports are modelled for one raising step only. A class row whose subject or teacher key does not fit SQLite's 64-bit INTEGER raises OverflowError and is skipped with a row error (`AdminImports.OverflowingKeySkipsRow`). Database errors on autoflush are not modelled, and no step of the student import raises.
- AdminRoutes.DeleteSubject, DeleteTeacher, DeleteStudent, DeleteSubjectClass, EditUserAdmin, DeleteUserAdmin, ManageEnrollments, Unenroll, TeacherRoutes.AttendanceRegister.MarkAttendance and ClassAttendanceReport: a URL id at or beyond 2^63 makes the `get_or_404` lookup raise OverflowError and the view answer 500. The model takes every id as a key and answers 404 for it.
- AdminRoutes.EditUserAdmin: the edit form is built with `obj=user_to_edit`, so a field missing from the POST keeps the stored value. The model reads a missing field as None: it refuses a POST without a username and stores no first or last name for a POST without them. Requests that omit a field of the rendered form are not modelled.
- TeacherRoutes.FormEntry: the hidden `student_id` field is taken as already read as an integer. Its `DataRequired` check and a blank or non-numeric posted id are not modelled.
- Failed commits and their rollback in the admin views. A commit is taken to succeed. Only the attendance batch models a raising step.
- The composite-key race between two concurrent attendance submissions. It is concurrency.
- TeacherRoutes.AttendanceRegister.MarkBatch: the view's lookup filters on student, class and date only. A stored record for the same day with a set session time could be picked up by it. The model looks up the key with no session time, which is the only key the view ever writes.
- Text.Lower: folds ASCII letters only. This is what SQLite's `lower()` does, but Python's `str.lower()` also folds other letters.
- Dates.ParseYmd: only ASCII digits are read, although Python's `strptime` and `int()` also accept other Unicode digits.
- Dates.ParseFormatYmd: `strftime` pads the year to four digits, as CPython does on Linux; platforms that omit the padding for years below 1000 are not modelled.
- Text.ParseInt: Python's `int()` also accepts underscores between digits ("1_0") and non-ASCII decimal digits. The model refuses both, so a subject or teacher named by such a number is not found by key.
- Decorators.AsPrincipal: a signed-in user reaches the gates with their role whatever their `is_active` flag. Under Flask-Login 0.6, `is_authenticated` follows `is_active`, so a user deactivated mid-session is sent to login. The library version is not part of this model.
- The column defaults of `User.role`, `User.is_active` and `Attendance.status` (app/models.py:56-57 and 170). No modelled operation creates a row without giving these columns.
- AdminImports.ClassifyStudentRow: read as meant, only the text cells take "nan" (the text of a cell pandas reads as missing, exactly in lower case) as blank. An empty `is_active` cell still reads "nan", and so still clears the flag.
- The login view, backups, the dashboard rate, the trivial staff and main views, `run.py`, the configuration and the migrations. These are I/O, a floating-point percentage, or plumbing.
- Month-range session expansion, holiday-derived default statuses, the timetable grid and `ClassSchedule` checks. The code does not implement them. Rows of the `Holiday` table are not modelled; only the holiday form's validators are.
- The add, edit and list views for subjects, teachers, students and classes, and `add_user_admin`. Their validators are modelled in `AdminForms`. `TeacherForm` shares its uniqueness checks and its edit-time password lists with `UserAdminForm`.

## Findings

| source | as written | input that shows it | evidently intended | confidence | as-written member | corrected member |
|---|---|---|---|---|---|---|
| app/teacher/routes.py:90-92 | The attendance lookups and the new record use `class_id` and `attendance_date`, which `Attendance` does not have. | Any marking page of a class with an active enrolled student: the lookup raises. | Look up and create records by `subject_class_id` and `date`. | high; not executed | TeacherRoutes.WrittenQueriesRaise | TeacherRoutes.AttendanceRegister.MarkBatch |
| app/teacher/routes.py:94 | The submitted status is wrapped in the four-value `AttendanceStatus` enum, while the form offers six string statuses and the column holds strings. | Latent: as written, the lookup of lines 90-92 raises InvalidRequestError first. Once its column names are corrected, submitting `public_holiday` for one student makes `AttendanceStatus('public_holiday')` raise ValueError, and the whole batch is rolled back. | Store the submitted status string. | high; not executed | Models.StatusVocabulary | TeacherRoutes.BatchStoresSubmittedValues |
| app/teacher/routes.py:183-190 | String statuses are compared with enum members. | Latent: as written, the query at line 159 raises InvalidRequestError first. Once its column name is corrected, a student with one `present` record is reported with sessions 1 and present 0. | Compare each status with the member's value. | high; not executed | TeacherRoutes.TallyAsWrittenCountsNoStatus | TeacherRoutes.TallyCountsStatuses |
| app/admin/routes.py:259 | The guard reads `student.attendance_entries`, but the backref is `attendances`. | Deleting any existing student: AttributeError, and the student is never deleted. | Refuse while the student has attendance or enrollments, and delete otherwise. | high; not executed | AdminRoutes.DeleteStudentAsWrittenNeverDeletes | AdminRoutes.DeleteStudent |
| app/admin/routes.py:332 | The guard reads `subject_class.attendance_records`, but the backref is `attendances`. | Deleting a class with no enrolled students: AttributeError. | Refuse while students are enrolled or attendance exists, and delete otherwise. | high; not executed | AdminRoutes.DeleteSubjectClassAsWrittenNeverDeletes | AdminRoutes.DeleteSubjectClass |
| app/admin/routes.py:609-610 | The self-demotion warning converts `request.form.get('role')` before looking at the request method. | An ADMIN opens their own edit page with a GET: `UserRole(None)` raises ValueError. | Warn about self-demotion only on a POST; the role rule at lines 626-633 decides. | high; not executed | AdminRoutes.EditOwnPageAsWrittenRaises | AdminRoutes.EditUserAdmin |
| app/teacher/routes.py:122 | The prefill reads `existing_attendance.status.value`, but the column holds a string. | Latent: as written, the lookup of lines 116-118 raises InvalidRequestError first. Once its column names are corrected, opening the page for a date on which a roster student has a record, for example the page a save redirects to, raises AttributeError. | Show the stored status string. | high; not executed | TeacherRoutes.PrefillAsWrittenRaisesAfterSave | TeacherRoutes.PrefillEntries |
| app/admin/routes.py:415-420 | The required cells and the email are read as `str(cell).strip()`, and pandas reads an empty cell as NaN, whose text is "nan". | The row `,Ann,Lee` is imported with ID number "nan". Two rows with empty emails: the second is refused with "Email 'nan' already exists". | Take an empty cell as blank, as the same view does for the date cell at line 424. | high; not executed | AdminImports.EmptyIdNumberAsWritten | AdminImports.StudentRowSkips |
| app/models.py:182-184 | The UNIQUE constraint includes the nullable `session_time`, and the marking view never sets it. | Two rows for the same student, class and date, both with NULL session time: the constraint admits both. | At most one attendance record per (student, class, date, session). | medium; not executed | Models.NullSessionDuplicatesAdmitted | TeacherRoutes.AttendanceRegister.MarkBatch |
