/**
 * The teacher views of app/teacher/routes.py: the weekday a schedule string
 * names, the date a marking page opens on, the batch upsert of attendance
 * behind `mark_attendance`, the form it prefills, and the per-student tally of
 * `class_attendance_report`.
 *
 * The view's own text has four faults that stop it from working as
 * designed; the model follows the design and keeps each fault beside it as
 * an "as written" member:
 *  - its queries name the columns `class_id` and `attendance_date`, which
 *    the attendance table calls `subject_class_id` and `date`
 *    (`WrittenQueriesRaise`);
 *  - it wraps the submitted status in the four-value `AttendanceStatus`
 *    enum, while the form offers six string statuses and the column holds
 *    strings (`Models.StatusVocabulary`);
 *  - the prefill reads a stored status through `.value` as if it were an
 *    enum member, which raises for a string (`PrefillAsWrittenRaises`;
 *    `PrefillFor` shows the stored string);
 *  - the report compares string statuses with enum members, which never
 *    compare equal (`TallyAsWrittenCountsNoStatus`).
 * The last three are latent: each sits behind a lookup by the misnamed
 * columns, which raises InvalidRequestError first. They are reached only
 * once those column names are corrected.
 */
module TeacherRoutes {
  import opened Wrappers
  import opened Text
  import opened Dates
  import opened Models

  // ---- Schedules and dates ----

  /** The keys of the view's weekday table, at their weekday numbers. */
  const DayAbbreviations: seq<string> := ["mon", "tue", "wed", "thu", "fri", "sat", "sun"]

  /** `days_map.get(a)`. */
  function DayOfAbbreviation(a: string): (r: Option<int>)
    ensures r.Some? ==> 0 <= r.value < 7 && DayAbbreviations[r.value] == a
    ensures r.None? ==> a !in DayAbbreviations
  {
    if a == "mon" then Some(0)
    else if a == "tue" then Some(1)
    else if a == "wed" then Some(2)
    else if a == "thu" then Some(3)
    else if a == "fri" then Some(4)
    else if a == "sat" then Some(5)
    else if a == "sun" then Some(6)
    else None
  }

  /**
   * `parse_scheduled_day(schedule)`: the weekday named by the first three
   * characters of the schedule text, ignoring case; None for a missing or
   * short text or an unknown prefix.
   */
  function ParseScheduledDay(schedule: Option<string>): (r: Option<int>)
    ensures r.Some? ==> 0 <= r.value < 7
  {
    if schedule.None? || |schedule.value| < 3 then None
    else DayOfAbbreviation(Lower(schedule.value[..3]))
  }

  /**
   * A schedule names weekday `w` exactly when it has at least three
   * characters whose lower-cased form is the `w`-th abbreviation; what
   * follows the third character never matters.
   */
  lemma ParseScheduledDayMeaning(s: string, w: int)
    ensures ParseScheduledDay(Some(s)) == Some(w) <==> (|s| >= 3 && 0 <= w < 7 && Lower(s[..3]) == DayAbbreviations[w])
    ensures |s| < 3 ==> ParseScheduledDay(Some(s)) == None
    ensures ParseScheduledDay(None) == None
    ensures |s| >= 3 ==> forall tail :: ParseScheduledDay(Some(s[..3] + tail)) == ParseScheduledDay(Some(s))
  {
    if |s| >= 3 {
      forall tail ensures ParseScheduledDay(Some(s[..3] + tail)) == ParseScheduledDay(Some(s)) {
        assert (s[..3] + tail)[..3] == s[..3];
      }
    }
  }

  /**
   * The date a marking page defaults to: with a scheduled weekday, that
   * weekday in the Monday-to-Sunday week holding `today`; otherwise `today`.
   */
  function DefaultClassDate(today: Date, scheduled: Option<int>): (r: Date)
    requires scheduled.Some? ==> 0 <= scheduled.value < 7
    ensures scheduled.None? ==> r == today
    ensures scheduled.Some? ==> Weekday(r) == scheduled.value && WeekStart(r) == WeekStart(today)
  {
    if scheduled.None? then today
    else AddDays(today, scheduled.value - Weekday(today))
  }

  /** Why the selected date is not the one asked for. */
  datatype DateNotice = NoNotice | NotAClassDay | BadDateFormat

  /**
   * Lines 64-79 of the view: the date the page works on. `dateArg` is the
   * `attendance_date` query argument, `posted` the date the posted form
   * carries, if any, with `fallback` the default class date. A non-empty
   * argument is kept when it parses and falls on the scheduled weekday, and
   * is replaced by the fallback (with a notice) when it does not.
   */
  function SelectDate(dateArg: Option<string>, posted: Option<Date>, scheduled: Option<int>, fallback: Date): (r: (Date, DateNotice))
    ensures dateArg.Some? && dateArg.value != "" ==>
      (r.1 == NoNotice <==> (ParseYmd(dateArg.value).Some?
                             && (scheduled.None? || Weekday(ToDate(ParseYmd(dateArg.value).value)) == scheduled.value)))
    ensures dateArg.Some? && dateArg.value != "" && r.1 == NoNotice ==> r.0 == ToDate(ParseYmd(dateArg.value).value)
    ensures dateArg.Some? && dateArg.value != "" && ParseYmd(dateArg.value).None? ==> r.1 == BadDateFormat
    ensures r.1 != NoNotice ==> r.0 == fallback
    ensures (dateArg.None? || dateArg.value == "") ==> r.1 == NoNotice && r.0 == posted.GetOr(fallback)
  {
    if dateArg.Some? && dateArg.value != "" then
      match ParseYmd(dateArg.value)
      case None => (fallback, BadDateFormat)
      case Some(c) =>
        if scheduled.Some? && Weekday(ToDate(c)) != scheduled.value then (fallback, NotAClassDay)
        else (ToDate(c), NoNotice)
    else (posted.GetOr(fallback), NoNotice)
  }

  /**
   * With a weekday scheduled, a page opened with a date argument always
   * works on a date of that weekday, whatever the argument says.
   */
  lemma SelectedDateOnScheduledWeekday(today: Date, w: int, dateArg: string, posted: Option<Date>)
    requires 0 <= w < 7 && dateArg != ""
    ensures Weekday(SelectDate(Some(dateArg), posted, Some(w), DefaultClassDate(today, Some(w))).0) == w
  {
  }

  // ---- The attendance register and the batch upsert ----

  /**
   * One student's row of the marking form, with the hidden `student_id`
   * already read as a number; a blank or non-numeric posted id is not
   * modelled.
   */
  datatype FormEntry = FormEntry(studentId: int, status: string, remarks: Option<string>)

  /** The key a marked entry is stored under: the view never sets a session time. */
  function KeyOf(classId: int, date: Date, e: FormEntry): AttendanceKey {
    AttendanceKey(e.studentId, classId, date, None)
  }

  function BatchKeys(classId: int, date: Date, entries: seq<FormEntry>): set<AttendanceKey> {
    set e | e in entries :: KeyOf(classId, date, e)
  }

  /** One step of the loop: update the record under the entry's key, or add one. */
  function UpsertEntry(t: AttendanceTable, nextId: nat, classId: int, date: Date, actor: int, e: FormEntry): (AttendanceTable, nat) {
    var k := KeyOf(classId, date, e);
    if k in t then (t[k := t[k].(status := e.status, remarks := e.remarks, recordedBy := Some(actor))], nextId)
    else (t[k := AttendanceRecord(nextId, e.status, e.remarks, Some(actor))], nextId + 1)
  }

  /** The table and next row id after the loop has handled every entry, in order. */
  function ApplyBatch(t: AttendanceTable, nextId: nat, classId: int, date: Date, actor: int, entries: seq<FormEntry>): (AttendanceTable, nat)
    decreases |entries|
  {
    if |entries| == 0 then (t, nextId)
    else
      var p := ApplyBatch(t, nextId, classId, date, actor, entries[..|entries| - 1]);
      UpsertEntry(p.0, p.1, classId, date, actor, entries[|entries| - 1])
  }

  /** The entry for student `sid` that the batch writes last. */
  function LastEntryFor(sid: int, entries: seq<FormEntry>): (r: Option<FormEntry>)
    ensures r.Some? ==> r.value in entries && r.value.studentId == sid
    ensures r.None? ==> forall e :: e in entries ==> e.studentId != sid
    decreases |entries|
  {
    if |entries| == 0 then None
    else if entries[|entries| - 1].studentId == sid then Some(entries[|entries| - 1])
    else LastEntryFor(sid, entries[..|entries| - 1])
  }

  /** Row ids are below the next id and belong to one key each. */
  ghost predicate IdsDistinct(t: AttendanceTable, nextId: nat) {
    (forall k :: k in t ==> 0 <= t[k].id < nextId)
    && (forall k1, k2 :: k1 in t && k2 in t && t[k1].id == t[k2].id ==> k1 == k2)
  }

  lemma BatchKeysStep(classId: int, date: Date, entries: seq<FormEntry>)
    requires |entries| > 0
    ensures BatchKeys(classId, date, entries)
         == BatchKeys(classId, date, entries[..|entries| - 1]) + {KeyOf(classId, date, entries[|entries| - 1])}
  {
    assert entries == entries[..|entries| - 1] + [entries[|entries| - 1]];
  }

  /** The batch's table holds the old keys and one key per submitted student. */
  lemma {:induction false} BatchKeySet(t: AttendanceTable, nextId: nat, classId: int, date: Date, actor: int, entries: seq<FormEntry>)
    ensures ApplyBatch(t, nextId, classId, date, actor, entries).0.Keys == t.Keys + BatchKeys(classId, date, entries)
    decreases |entries|
  {
    if |entries| > 0 {
      BatchKeySet(t, nextId, classId, date, actor, entries[..|entries| - 1]);
      BatchKeysStep(classId, date, entries);
    }
  }

  lemma NewKeysStep<K>(submitted: set<K>, stored: set<K>, k: K)
    ensures |(submitted + {k}) - stored| == |submitted - stored| + (if k in stored || k in submitted then 0 else 1)
  {
    if k !in stored && k !in submitted {
      assert (submitted + {k}) - stored == (submitted - stored) + {k};
    } else {
      assert (submitted + {k}) - stored == submitted - stored;
    }
  }

  /** The next row id grows by the number of submitted students that had no record. */
  lemma {:induction false} BatchCountsInserts(t: AttendanceTable, nextId: nat, classId: int, date: Date, actor: int, entries: seq<FormEntry>)
    ensures ApplyBatch(t, nextId, classId, date, actor, entries).1 == nextId + |BatchKeys(classId, date, entries) - t.Keys|
    decreases |entries|
  {
    if |entries| > 0 {
      var init := entries[..|entries| - 1];
      var k := KeyOf(classId, date, entries[|entries| - 1]);
      BatchCountsInserts(t, nextId, classId, date, actor, init);
      BatchKeySet(t, nextId, classId, date, actor, init);
      BatchKeysStep(classId, date, entries);
      var p := ApplyBatch(t, nextId, classId, date, actor, init);
      assert ApplyBatch(t, nextId, classId, date, actor, entries).1 == p.1 + (if k in p.0 then 0 else 1);
      assert p.0.Keys == t.Keys + BatchKeys(classId, date, init);
      NewKeysStep(BatchKeys(classId, date, init), t.Keys, k);
    }
  }

  /** Records under keys the batch does not touch are unchanged. */
  lemma {:induction false} BatchLeavesOtherKeys(t: AttendanceTable, nextId: nat, classId: int, date: Date, actor: int, entries: seq<FormEntry>, k: AttendanceKey)
    requires k in t && k !in BatchKeys(classId, date, entries)
    ensures k in ApplyBatch(t, nextId, classId, date, actor, entries).0
    ensures ApplyBatch(t, nextId, classId, date, actor, entries).0[k] == t[k]
    decreases |entries|
  {
    if |entries| > 0 {
      BatchKeysStep(classId, date, entries);
      BatchLeavesOtherKeys(t, nextId, classId, date, actor, entries[..|entries| - 1], k);
    }
  }

  /**
   * Every submitted student's record holds the status and remarks of that
   * student's last entry and the actor as its recorder; an existing record
   * keeps its row id.
   */
  lemma {:induction false} BatchStoresSubmittedValues(t: AttendanceTable, nextId: nat, classId: int, date: Date, actor: int, entries: seq<FormEntry>, sid: int)
    requires LastEntryFor(sid, entries).Some?
    ensures var k := AttendanceKey(sid, classId, date, None);
      var e := LastEntryFor(sid, entries).value;
      var t' := ApplyBatch(t, nextId, classId, date, actor, entries).0;
      k in t' && t'[k].status == e.status && t'[k].remarks == e.remarks && t'[k].recordedBy == Some(actor)
      && (k in t ==> t'[k].id == t[k].id)
    decreases |entries|
  {
    var init := entries[..|entries| - 1];
    var k := AttendanceKey(sid, classId, date, None);
    if entries[|entries| - 1].studentId != sid {
      BatchStoresSubmittedValues(t, nextId, classId, date, actor, init, sid);
    } else if LastEntryFor(sid, init).Some? {
      BatchStoresSubmittedValues(t, nextId, classId, date, actor, init, sid);
    } else if k in t {
      assert k !in BatchKeys(classId, date, init);
      BatchLeavesOtherKeys(t, nextId, classId, date, actor, init, k);
    }
  }

  /** The batch keeps row ids below the next id and distinct. */
  lemma {:induction false} BatchKeepsIdsDistinct(t: AttendanceTable, nextId: nat, classId: int, date: Date, actor: int, entries: seq<FormEntry>)
    requires IdsDistinct(t, nextId)
    ensures var p := ApplyBatch(t, nextId, classId, date, actor, entries); IdsDistinct(p.0, p.1) && p.1 >= nextId
    decreases |entries|
  {
    if |entries| > 0 {
      BatchKeepsIdsDistinct(t, nextId, classId, date, actor, entries[..|entries| - 1]);
    }
  }

  /**
   * Saving the same batch a second time changes nothing: no record is added
   * and every record already holds what the batch writes.
   */
  lemma {:induction false} BatchIdempotent(t: AttendanceTable, nextId: nat, classId: int, date: Date, actor: int, entries: seq<FormEntry>)
    ensures var p := ApplyBatch(t, nextId, classId, date, actor, entries);
      ApplyBatch(p.0, p.1, classId, date, actor, entries) == p
  {
    var p := ApplyBatch(t, nextId, classId, date, actor, entries);
    var q := ApplyBatch(p.0, p.1, classId, date, actor, entries);
    BatchKeySet(t, nextId, classId, date, actor, entries);
    BatchKeySet(p.0, p.1, classId, date, actor, entries);
    BatchCountsInserts(p.0, p.1, classId, date, actor, entries);
    assert BatchKeys(classId, date, entries) - p.0.Keys == {};
    assert q.0.Keys == p.0.Keys;
    forall k | k in p.0 ensures q.0[k] == p.0[k] {
      if k in BatchKeys(classId, date, entries) {
        var e :| e in entries && KeyOf(classId, date, e) == k;
        assert LastEntryFor(k.studentId, entries).Some?;
        BatchStoresSubmittedValues(t, nextId, classId, date, actor, entries, k.studentId);
        BatchStoresSubmittedValues(p.0, p.1, classId, date, actor, entries, k.studentId);
      } else {
        BatchLeavesOtherKeys(p.0, p.1, classId, date, actor, entries, k);
      }
    }
    assert q.0 == p.0;
  }

  // ---- Prefill ----

  /**
   * The active students enrolled, in (last name, first name) order: each
   * active enrolled student exactly as often as enrolled, no one else.
   */
  function ActiveRoster(enrolled: seq<Student>): (r: seq<Student>)
    ensures SortedByName(r)
    ensures forall x :: multiset(r)[x] == if x.isActive then multiset(enrolled)[x] else 0
  {
    SortByName(ActiveOnly(enrolled))
  }

  /**
   * The form row for `s` on `date`: the stored status and remarks, or
   * `present` and no remarks. The view reads the stored status through
   * `.value`, as if it were an enum member; the column holds the string
   * itself, which is what the row shows.
   */
  function PrefillFor(t: AttendanceTable, classId: int, date: Date, s: Student): FormEntry {
    var k := AttendanceKey(s.id, classId, date, None);
    if k in t then FormEntry(s.id, t[k].status, t[k].remarks) else FormEntry(s.id, Present.Value(), None)
  }

  /**
   * Lines 112-126 of the view: empty the form's list of rows, then append one
   * row per roster student, in roster order.
   */
  method PrefillEntries(submitted: seq<FormEntry>, roster: seq<Student>, t: AttendanceTable, classId: int, date: Date)
    returns (entries: seq<FormEntry>)
    ensures |entries| == |roster|
    ensures forall i :: 0 <= i < |roster| ==> entries[i] == PrefillFor(t, classId, date, roster[i])
  {
    entries := submitted;
    while |entries| > 0
      decreases |entries|
    {
      entries := entries[..|entries| - 1];
    }
    for i := 0 to |roster|
      invariant |entries| == i
      invariant forall j :: 0 <= j < i ==> entries[j] == PrefillFor(t, classId, date, roster[j])
    {
      entries := entries + [PrefillFor(t, classId, date, roster[i])];
    }
  }

  /**
   * After a saved batch, the form shows each submitted student's last
   * submitted status and remarks; a student neither submitted nor recorded
   * before shows `present`.
   */
  lemma PrefillShowsSavedBatch(t: AttendanceTable, nextId: nat, classId: int, date: Date, actor: int, entries: seq<FormEntry>, s: Student)
    ensures var t' := ApplyBatch(t, nextId, classId, date, actor, entries).0;
      var e := LastEntryFor(s.id, entries);
      (e.Some? ==> PrefillFor(t', classId, date, s) == FormEntry(s.id, e.value.status, e.value.remarks))
      && (e.None? && AttendanceKey(s.id, classId, date, None) !in t ==> PrefillFor(t', classId, date, s) == FormEntry(s.id, "present", None))
  {
    var k := AttendanceKey(s.id, classId, date, None);
    if LastEntryFor(s.id, entries).Some? {
      BatchStoresSubmittedValues(t, nextId, classId, date, actor, entries, s.id);
    } else {
      BatchKeySet(t, nextId, classId, date, actor, entries);
      assert k !in BatchKeys(classId, date, entries);
    }
  }

  /**
   * Line 122 as written, once the lookup at lines 116-118 names the right
   * columns (as written that lookup raises InvalidRequestError first): the
   * view reads `.value` of a stored status, which is a string, so the page
   * raises AttributeError as soon as one roster student has a record for the
   * date.
   */
  predicate PrefillAsWrittenRaises(t: AttendanceTable, classId: int, date: Date, roster: seq<Student>) {
    exists i :: 0 <= i < |roster| && AttendanceKey(roster[i].id, classId, date, None) in t
  }

  /**
   * With the lookup's column names corrected but line 122 as written, the
   * page a save redirects to fails whenever a roster student was submitted;
   * as meant, that student's row shows what was submitted.
   */
  lemma PrefillAsWrittenRaisesAfterSave(t: AttendanceTable, nextId: nat, classId: int, date: Date, actor: int,
                                        entries: seq<FormEntry>, roster: seq<Student>, i: nat, e: FormEntry)
    requires i < |roster| && e in entries && e.studentId == roster[i].id
    ensures PrefillAsWrittenRaises(ApplyBatch(t, nextId, classId, date, actor, entries).0, classId, date, roster)
    ensures var last := LastEntryFor(roster[i].id, entries);
      last.Some? && PrefillFor(ApplyBatch(t, nextId, classId, date, actor, entries).0, classId, date, roster[i])
                    == FormEntry(roster[i].id, last.value.status, last.value.remarks)
  {
    BatchKeySet(t, nextId, classId, date, actor, entries);
    assert KeyOf(classId, date, e) in BatchKeys(classId, date, entries);
    PrefillShowsSavedBatch(t, nextId, classId, date, actor, entries, roster[i]);
  }

  // ---- Validation of a submitted form ----

  /** The request as the marking view reads it. */
  datatype MarkRequest = MarkRequest(
    isPost: bool,
    dateArg: Option<string>,     // the `attendance_date` query argument
    postedDate: Option<string>,  // the posted `attendance_date` field, None when not posted
    entries: seq<FormEntry>)     // the posted rows

  /**
   * The date the posted form carries: its default, today, when the field is
   * not posted; None when the posted text is not a `%Y-%m-%d` date.
   */
  function PostedDate(req: MarkRequest, today: Date): Option<Date> {
    if req.postedDate.None? then Some(today)
    else match ParseYmd(req.postedDate.value)
      case Some(c) => Some(ToDate(c))
      case None => None
  }

  /**
   * A row passes when its status is one of the six choices and its remarks
   * are at most 200 characters. `Optional()` stops the remarks chain before
   * `Length` when the remarks are missing or only whitespace.
   */
  predicate EntryValid(e: FormEntry) {
    IsStatusValue(e.status) && (e.remarks.None? || Strip(e.remarks.value) == "" || |e.remarks.value| <= 200)
  }

  /**
   * `form.validate_on_submit()`: a POST whose date field parsed (the field's
   * data is then replaced by the selected date, which `DataRequired` accepts)
   * and whose every row passes.
   */
  predicate SubmissionValid(req: MarkRequest) {
    req.isPost
    && !(req.postedDate.Some? && ParseYmd(req.postedDate.value).None?)
    && forall e :: e in req.entries ==> EntryValid(e)
  }

  /** Why a submission was not saved. */
  datatype SubmitNotice = WrongSubmissionDay | SaveFailed

  /**
   * The date the view works on: the argument's date, the posted one, or the
   * default of the week (lines 56-79).
   */
  function MarkingDate(c: SubjectClass, today: Date, req: MarkRequest): (Date, DateNotice) {
    var scheduled := ParseScheduledDay(c.scheduleDetails);
    SelectDate(req.dateArg, if req.isPost then PostedDate(req, today) else None, scheduled, DefaultClassDate(today, scheduled))
  }

  /** The submitted date is a class day: no weekday is scheduled, or the date falls on it. */
  predicate OnScheduledDay(c: SubjectClass, date: Date) {
    ParseScheduledDay(c.scheduleDetails).Some? ==> Weekday(date) == ParseScheduledDay(c.scheduleDetails).value
  }

  /** What the marking view answers. */
  datatype MarkResponse =
    | ClassNotFound                   // `get_or_404`
    | NotAssignedTeacher              // redirect to the teacher's class list
    | SavedRedirect(savedDate: Date)  // redirect back to the page for the saved date
    | FormPage(date: Date, dateNotice: DateNotice, submitNotice: Option<SubmitNotice>, rows: seq<FormEntry>)

  // ---- The report ----

  /** One student's counters in the report. */
  datatype Tally = Tally(present: nat, absent: nat, late: nat, excused: nat, sessions: nat)

  /** The status comparison the report means: the stored string is the member's value. */
  predicate StatusIs(status: string, member: AttendanceStatus) {
    status == member.Value()
  }

  /** The comparison the report makes: a Python `str` never equals a plain `Enum` member. */
  predicate StrEqualsEnumMember(status: string, member: AttendanceStatus) {
    false
  }

  /** One record counted: a session, and at most one status counter. */
  function CountRecord(c: Tally, status: string, eq: (string, AttendanceStatus) -> bool): Tally {
    var c1 := c.(sessions := c.sessions + 1);
    if eq(status, Present) then c1.(present := c1.present + 1)
    else if eq(status, Absent) then c1.(absent := c1.absent + 1)
    else if eq(status, Late) then c1.(late := c1.late + 1)
    else if eq(status, Excused) then c1.(excused := c1.excused + 1)
    else c1
  }

  /** Counting a record by its value adds one session and one to the counter its status names, if any. */
  lemma CountRecordByValue(c: Tally, status: string)
    ensures var d := CountRecord(c, status, StatusIs);
      d.sessions == c.sessions + 1
      && d.present == c.present + (if status == "present" then 1 else 0)
      && d.absent == c.absent + (if status == "absent" then 1 else 0)
      && d.late == c.late + (if status == "late" then 1 else 0)
      && d.excused == c.excused + (if status == "excused" then 1 else 0)
  {
  }

  /** Student `sid`'s counters after the records `rows`, in order. */
  function TallyOf(sid: int, rows: seq<(AttendanceKey, AttendanceRecord)>, eq: (string, AttendanceStatus) -> bool): Tally
    decreases |rows|
  {
    if |rows| == 0 then Tally(0, 0, 0, 0, 0)
    else
      var c := TallyOf(sid, rows[..|rows| - 1], eq);
      var r := rows[|rows| - 1];
      if r.0.studentId == sid then CountRecord(c, r.1.status, eq) else c
  }

  /** The statuses of student `sid`'s records, in order. */
  function StatusesOf(sid: int, rows: seq<(AttendanceKey, AttendanceRecord)>): seq<string>
    decreases |rows|
  {
    if |rows| == 0 then []
    else StatusesOf(sid, rows[..|rows| - 1]) + (if rows[|rows| - 1].0.studentId == sid then [rows[|rows| - 1].1.status] else [])
  }

  /**
   * Each counter counts the student's records with that status, and
   * `sessions` all of the student's records, so the four status counters add
   * up to at most `sessions`.
   */
  lemma {:induction false} TallyCountsStatuses(sid: int, rows: seq<(AttendanceKey, AttendanceRecord)>)
    ensures var c := TallyOf(sid, rows, StatusIs); var m := multiset(StatusesOf(sid, rows));
      c.sessions == |StatusesOf(sid, rows)|
      && c.present == m["present"] && c.absent == m["absent"] && c.late == m["late"] && c.excused == m["excused"]
      && c.present + c.absent + c.late + c.excused <= c.sessions
    decreases |rows|
  {
    if |rows| > 0 {
      var init := rows[..|rows| - 1];
      var r := rows[|rows| - 1];
      TallyCountsStatuses(sid, init);
      if r.0.studentId == sid {
        CountRecordByValue(TallyOf(sid, init, StatusIs), r.1.status);
        assert StatusesOf(sid, rows) == StatusesOf(sid, init) + [r.1.status];
        assert multiset(StatusesOf(sid, rows)) == multiset(StatusesOf(sid, init)) + multiset{r.1.status};
      } else {
        assert StatusesOf(sid, rows) == StatusesOf(sid, init);
      }
    }
  }

  /**
   * Lines 183-190 as written, once the query at line 159 names the right
   * column (as written it raises InvalidRequestError first): the report
   * counts every record of a student as a session but none under any status,
   * since the string statuses never equal the enum members they are compared
   * with.
   */
  lemma {:induction false} TallyAsWrittenCountsNoStatus(sid: int, rows: seq<(AttendanceKey, AttendanceRecord)>)
    ensures var c := TallyOf(sid, rows, StrEqualsEnumMember);
      c.present == 0 && c.absent == 0 && c.late == 0 && c.excused == 0
      && c.sessions == TallyOf(sid, rows, StatusIs).sessions
    decreases |rows|
  {
    if |rows| > 0 {
      TallyAsWrittenCountsNoStatus(sid, rows[..|rows| - 1]);
    }
  }

  /**
   * Lines 155-190 of the report: counters at zero for each roster student,
   * then one pass over the class's records, skipping other students.
   */
  method ReportTally(roster: seq<Student>, rows: seq<(AttendanceKey, AttendanceRecord)>) returns (summary: map<int, Tally>)
    ensures summary.Keys == set s | s in roster :: s.id
    ensures forall sid :: sid in summary ==> summary[sid] == TallyOf(sid, rows, StatusIs)
  {
    summary := map[];
    for i := 0 to |roster|
      invariant summary.Keys == set s | s in roster[..i] :: s.id
      invariant forall sid :: sid in summary ==> summary[sid] == Tally(0, 0, 0, 0, 0)
    {
      assert roster[..i + 1] == roster[..i] + [roster[i]];
      summary := summary[roster[i].id := Tally(0, 0, 0, 0, 0)];
    }
    assert roster[..|roster|] == roster;
    for i := 0 to |rows|
      invariant summary.Keys == set s | s in roster :: s.id
      invariant forall sid :: sid in summary ==> summary[sid] == TallyOf(sid, rows[..i], StatusIs)
    {
      assert rows[..i + 1][..i] == rows[..i];
      var sid := rows[i].0.studentId;
      if sid in summary {
        summary := summary[sid := CountRecord(summary[sid], rows[i].1.status, StatusIs)];
      }
    }
    assert rows[..|rows|] == rows;
  }

  /** The dates on which the class has any record: `unique_class_session_dates` counts them. */
  function SessionDates(rows: seq<(AttendanceKey, AttendanceRecord)>): set<Date> {
    set r | r in rows :: r.0.date
  }

  /** There are no more session dates than records, and every one is a record's date. */
  lemma {:induction false} SessionDatesBounded(rows: seq<(AttendanceKey, AttendanceRecord)>)
    ensures |SessionDates(rows)| <= |rows|
    ensures forall d :: d in SessionDates(rows) ==> exists i :: 0 <= i < |rows| && rows[i].0.date == d
    decreases |rows|
  {
    if |rows| > 0 {
      var init := rows[..|rows| - 1];
      SessionDatesBounded(init);
      assert rows == init + [rows[|rows| - 1]];
      assert SessionDates(rows) == SessionDates(init) + {rows[|rows| - 1].0.date};
    }
  }

  /** The report's check: an admin, a staff user, or the class's teacher may see it. */
  predicate ReportAuthorized(actor: User, c: SubjectClass) {
    actor.IsAdmin() || actor.IsStaff() || c.teacherUserId == Some(actor.id)
  }

  /**
   * Behind `teacher_required` the actor is a teacher, so the report's check
   * reduces to the actor being the class's teacher.
   */
  lemma ReportAuthorizedForTeachers(actor: User, c: SubjectClass)
    requires actor.IsTeacher()
    ensures ReportAuthorized(actor, c) <==> c.teacherUserId == Some(actor.id)
  {
  }

  /** What the report view answers. */
  datatype ReportResponse =
    | ReportNotFound
    | ReportNotAuthorized
    | Report(summary: map<int, Tally>, sessionDateCount: nat)

  /**
   * `class_attendance_report`: the caller passes in `rows` the records whose
   * key names this class, which is what the intended
   * `filter_by(subject_class_id=…)` at line 159 returns, and in `enrolled`
   * the class's enrolled students.
   */
  method ClassAttendanceReport(actor: User, cls: Option<SubjectClass>, enrolled: seq<Student>, rows: seq<(AttendanceKey, AttendanceRecord)>)
    returns (r: ReportResponse)
    ensures cls.None? <==> r.ReportNotFound?
    ensures r.ReportNotAuthorized? <==> cls.Some? && !ReportAuthorized(actor, cls.value)
    ensures r.Report? ==> r.sessionDateCount == |SessionDates(rows)|
    ensures r.Report? ==> r.summary.Keys == (set s | s in enrolled && s.isActive :: s.id)
    ensures r.Report? ==> forall sid :: sid in r.summary ==> r.summary[sid] == TallyOf(sid, rows, StatusIs)
  {
    if cls.None? {
      return ReportNotFound;
    }
    if !ReportAuthorized(actor, cls.value) {
      return ReportNotAuthorized;
    }
    var roster := ActiveRoster(enrolled);
    var summary := ReportTally(roster, rows);
    assert forall s :: s in roster <==> s in enrolled && s.isActive by {
      forall s ensures s in roster <==> s in enrolled && s.isActive {
        assert s in roster <==> multiset(roster)[s] > 0;
        assert s in enrolled <==> multiset(enrolled)[s] > 0;
      }
    }
    return Report(summary, |SessionDates(rows)|);
  }

  // ---- The view's column names ----

  /** The attributes of the `Attendance` model that a query may filter on. */
  const AttendanceAttributes: set<string> := {
    "id", "student_id", "subject_class_id", "date", "status", "remarks", "recorded_by_user_id",
    "created_at", "updated_at", "session_time", "student", "subject_class", "recorded_by"}

  /** `Attendance.query.filter_by(**keys)` raises unless every keyword names an attribute. */
  predicate FilterByResolves(keys: set<string>) {
    keys <= AttendanceAttributes
  }

  /**
   * As written, the lookups of the batch loop and the prefill (lines 90-92,
   * 116-118) and the report's record query (line 159) raise, and so does the
   * report's `Attendance.attendance_date` (line 176); the same queries on the
   * model's column names resolve.
   */
  lemma WrittenQueriesRaise()
    ensures !FilterByResolves({"student_id", "class_id", "attendance_date"})
    ensures !FilterByResolves({"class_id"})
    ensures "attendance_date" !in AttendanceAttributes
    ensures FilterByResolves({"student_id", "subject_class_id", "date"}) && FilterByResolves({"subject_class_id"})
  {
    assert "class_id" !in AttendanceAttributes;
  }

  /**
   * The attendance table as the marking view sees it, with the id the next
   * inserted row gets. Each key holds at most one record.
   */
  class AttendanceRegister {
    var records: AttendanceTable
    var nextId: nat

    ghost predicate Valid()
      reads this
    {
      IdsDistinct(records, nextId)
    }

    constructor Empty()
      ensures Valid() && records == map[] && nextId == 1
    {
      records := map[];
      nextId := 1;
    }

    /**
     * Lines 85-110 of the view: upsert one record per entry in a staged copy,
     * then commit. `fault` is the index of the step that raises (a step per
     * entry, then the commit at index |entries|); a raising step rolls the
     * whole batch back.
     */
    method MarkBatch(classId: int, date: Date, actor: int, entries: seq<FormEntry>, fault: Option<nat>) returns (saved: bool)
      requires Valid()
      modifies this
      ensures Valid()
      ensures saved <==> !(fault.Some? && fault.value <= |entries|)
      ensures saved ==> (records, nextId) == ApplyBatch(old(records), old(nextId), classId, date, actor, entries)
      ensures !saved ==> records == old(records) && nextId == old(nextId)
    {
      var staged := records;
      var id := nextId;
      var i := 0;
      while i < |entries|
        invariant 0 <= i <= |entries|
        invariant (staged, id) == ApplyBatch(records, nextId, classId, date, actor, entries[..i])
        invariant fault.Some? ==> fault.value >= i
      {
        if fault == Some(i) {
          return false;
        }
        assert entries[..i + 1][..i] == entries[..i];
        var k := KeyOf(classId, date, entries[i]);
        if k in staged {
          staged := staged[k := staged[k].(status := entries[i].status, remarks := entries[i].remarks, recordedBy := Some(actor))];
        } else {
          staged := staged[k := AttendanceRecord(id, entries[i].status, entries[i].remarks, Some(actor))];
          id := id + 1;
        }
        i := i + 1;
      }
      if fault == Some(|entries|) {
        return false;
      }
      assert entries[..|entries|] == entries;
      BatchKeepsIdsDistinct(records, nextId, classId, date, actor, entries);
      records, nextId := staged, id;
      return true;
    }

    /**
     * `mark_attendance` for the signed-in teacher `actorId`: the class
     * (None when it does not exist), and in `enrolled` the caller passes that
     * class's enrolled students (`subject_class.students`); then today's date
     * and the request. `fault` is passed to the batch. The register holds
     * every class's records; the view only reads and writes keys naming this
     * class.
     */
    method MarkAttendance(actorId: int, cls: Option<SubjectClass>, enrolled: seq<Student>, today: Date, req: MarkRequest, fault: Option<nat>)
      returns (resp: MarkResponse)
      requires Valid()
      modifies this
      ensures Valid()
      ensures resp.ClassNotFound? <==> cls.None?
      ensures resp.NotAssignedTeacher? <==> cls.Some? && cls.value.teacherUserId != Some(actorId)
      ensures resp.SavedRedirect? <==>
        cls.Some? && cls.value.teacherUserId == Some(actorId) && SubmissionValid(req)
        && OnScheduledDay(cls.value, MarkingDate(cls.value, today, req).0)
        && !(fault.Some? && fault.value <= |req.entries|)
      ensures resp.SavedRedirect? ==>
        resp.savedDate == MarkingDate(cls.value, today, req).0
        && (records, nextId) == ApplyBatch(old(records), old(nextId), cls.value.id, resp.savedDate, actorId, req.entries)
      ensures resp.FormPage? ==> resp.date == MarkingDate(cls.value, today, req).0 && resp.dateNotice == MarkingDate(cls.value, today, req).1
      ensures resp.FormPage? ==>
        (resp.submitNotice == Some(WrongSubmissionDay) <==> SubmissionValid(req) && !OnScheduledDay(cls.value, resp.date))
        && (resp.submitNotice == Some(SaveFailed) <==> SubmissionValid(req) && OnScheduledDay(cls.value, resp.date))
      ensures !resp.SavedRedirect? ==> records == old(records) && nextId == old(nextId)
      ensures resp.FormPage? ==> |resp.rows| == |ActiveRoster(enrolled)|
      ensures resp.FormPage? ==> forall i :: 0 <= i < |resp.rows| ==>
                resp.rows[i] == PrefillFor(records, cls.value.id, resp.date, ActiveRoster(enrolled)[i])
    {
      if cls.None? {
        return ClassNotFound;
      }
      var c := cls.value;
      if c.teacherUserId != Some(actorId) {
        return NotAssignedTeacher;
      }
      var scheduled := ParseScheduledDay(c.scheduleDetails);
      var fallback := DefaultClassDate(today, scheduled);
      var selected := SelectDate(req.dateArg, if req.isPost then PostedDate(req, today) else None, scheduled, fallback);
      assert selected == MarkingDate(c, today, req);
      var date := selected.0;
      var submitNotice: Option<SubmitNotice> := None;
      if SubmissionValid(req) {
        if scheduled.Some? && Weekday(date) != scheduled.value {
          submitNotice := Some(WrongSubmissionDay);
        } else {
          var saved := MarkBatch(c.id, date, actorId, req.entries, fault);
          if saved {
            return SavedRedirect(date);
          }
          submitNotice := Some(SaveFailed);
        }
      }
      var roster := ActiveRoster(enrolled);
      var rows := PrefillEntries(req.entries, roster, records, c.id, date);
      return FormPage(date, selected.1, submitNotice, rows);
    }
  }
}
