/** The enrollment lifecycle of app.py as functions on the database value:
    the student's request (`student_enroll`), the owning instructor's
    approve / reject / block / unblock / remove, course creation (which
    fixes the code and the enrollment key a request must present), and the
    admin's decision on an instructor account. Each route is one atomic
    step: either every write of its transaction happens, or none does. */
module Enrollment {
  import opened Wrappers
  import opened Tables
  import Text
  import Access

  /** What a route reports back (its flash message or status code). */
  datatype Outcome =
    | Done
    | AccessDenied          // a decorator or role check redirected
    | MissingInput          // "Course code and enrollment key are required."
    | MissingCode
    | MissingTitle
    | MissingKey
    | BadCapacity           // `int(max_students)` raised outside the try: a 500
    | KeyTooShort
    | CodeTaken
    | CourseNotFound        // unknown code or inactive course
    | InvalidKey
    | AlreadyRequested
    | CourseFull
    | NotFoundOrProcessed   // the guarded SELECT found no row
    | StorageError          // an exception inside the try block: rollback

  datatype Reply = Reply(db: Db, outcome: Outcome)

  /** `request.form.get('course_code', '').strip().upper()`. */
  function NormalizeCode(raw: string): string {
    Text.Upper(Text.Strip(raw))
  }

  /** The course the enroll route's query returns for a code: that code,
      `is_active = 1`, and an instructor row to join with. */
  ghost predicate Enrollable(db: Db, id: CourseId, code: string) {
    id in db.courses && db.courses[id].code == code && db.courses[id].active
    && db.courses[id].instructor in db.users
  }

  ghost function FindCourse(db: Db, code: string): (r: Option<CourseId>)
    ensures r.Some? ==> Enrollable(db, r.value, code)
    ensures r.None? <==> forall id :: !Enrollable(db, id, code)
  {
    if exists id :: Enrollable(db, id, code) then
      var id :| Enrollable(db, id, code); Some(id)
    else None
  }

  /** Under the unique course codes, the enroll route's query finds at most
      one course, so any course it returns is the one `FindCourse` names. */
  lemma OnlyEnrollable(db: Db, cid: CourseId, code: string)
    requires Valid(db) && Enrollable(db, cid, code)
    ensures FindCourse(db, code) == Some(cid)
  {
  }

  /** The key check of `student_enroll`: a stored, non-empty hash that the
      password-hash verifier `checkKey` accepts for the key. */
  predicate KeyAccepted(c: Course, key: string, checkKey: (string, string) -> bool) {
    c.keyHash.Some? && c.keyHash.value != "" && checkKey(c.keyHash.value, key)
  }

  /** The pending row a successful request inserts. */
  function PendingRow(student: UserId, course: CourseId): Enrollment {
    Enrollment(student, course, Pending, false, 0.0, None)
  }

  /** `db'` is `db` with one row inserted under the next free id and one
      notification appended, and nothing else changed. */
  ghost predicate Inserted(db: Db, db': Db, row: Enrollment, n: Notification) {
    && db.nextEnrollmentId !in db.enrollments
    && db'.enrollments == db.enrollments[db.nextEnrollmentId := row]
    && db'.nextEnrollmentId == db.nextEnrollmentId + 1
    && db'.notifications == db.notifications + [n]
    && db' == db.(enrollments := db'.enrollments, nextEnrollmentId := db'.nextEnrollmentId,
                  notifications := db'.notifications)
  }

  /** `db'` is `db` with row `id` of `enrollments` replaced by `row` (or
      deleted when `row` is None) and one notification appended, and
      nothing else changed. */
  ghost predicate ChangedRow(db: Db, db': Db, id: EnrollmentId, row: Option<Enrollment>, n: Notification) {
    && id in db.enrollments
    && db'.enrollments == (if row.Some? then db.enrollments[id := row.value] else db.enrollments - {id})
    && db'.notifications == db.notifications + [n]
    && db' == db.(enrollments := db'.enrollments, notifications := db'.notifications)
  }

  /** `student_enroll`: checks in order the student role, the two required
      fields, the course (by upper-cased code, active), the key, that no row
      exists for the pair in any status, and that the approved count is
      below `max_students`; then inserts a pending row and notifies the
      course's instructor in the same commit. */
  ghost function Request(db: Db, caller: UserId, rawCode: string, rawKey: string,
                   checkKey: (string, string) -> bool, fault: bool): (r: Reply)
    requires Valid(db)
    ensures Valid(r.db)
    ensures r.outcome != Done ==> r.db == db
    ensures r.outcome == Done ==>
      exists cid :: Enrollable(db, cid, NormalizeCode(rawCode))
        && KeyAccepted(db.courses[cid], Text.Strip(rawKey), checkKey)
        && !HasRow(db.enrollments, caller, cid)
        && ApprovedCount(db.enrollments, cid) < db.courses[cid].maxStudents
        && Inserted(db, r.db, PendingRow(caller, cid),
                    Notification(db.courses[cid].instructor, "New Enrollment Request", "info", Some(cid)))
    ensures r.outcome == Done ==> Authenticated(db, caller) && db.users[caller].role == Student
  {
    if !Authenticated(db, caller) || db.users[caller].role != Student then Reply(db, AccessDenied)
    else
      var code := NormalizeCode(rawCode);
      var key := Text.Strip(rawKey);
      if code == [] || key == [] then Reply(db, MissingInput)
      else match FindCourse(db, code)
        case None => Reply(db, CourseNotFound)
        case Some(cid) => Admit(db, caller, cid, key, checkKey, fault)
  }

  /** The part of `student_enroll` after the course is found: the key, no
      row for the pair in any status, the capacity, and then the INSERT of
      the pending row with the instructor's notification. */
  function Admit(db: Db, caller: UserId, cid: CourseId, key: string,
                 checkKey: (string, string) -> bool, fault: bool): (r: Reply)
    requires Valid(db) && cid in db.courses
    ensures Valid(r.db)
    ensures r.outcome != Done ==> r.db == db
    ensures r.outcome == Done <==>
      KeyAccepted(db.courses[cid], key, checkKey) && !HasRow(db.enrollments, caller, cid)
      && ApprovedCount(db.enrollments, cid) < db.courses[cid].maxStudents && !fault
    ensures r.outcome == Done ==>
      Inserted(db, r.db, PendingRow(caller, cid),
               Notification(db.courses[cid].instructor, "New Enrollment Request", "info", Some(cid)))
  {
    var c := db.courses[cid];
    if !KeyAccepted(c, key, checkKey) then Reply(db, InvalidKey)
    else if HasRow(db.enrollments, caller, cid) then Reply(db, AlreadyRequested)
    else if ApprovedCount(db.enrollments, cid) >= c.maxStudents then Reply(db, CourseFull)
    else if fault then Reply(db, StorageError)
    else
      InsertKeepsValid(db, PendingRow(caller, cid));
      Reply(db.(enrollments := db.enrollments[db.nextEnrollmentId := PendingRow(caller, cid)],
                nextEnrollmentId := db.nextEnrollmentId + 1,
                notifications := db.notifications
                  + [Notification(c.instructor, "New Enrollment Request", "info", Some(cid))]),
            Done)
  }

  /** Inserting a row for a fresh pair of an existing course under the next
      free id keeps the schema's constraints. */
  lemma InsertKeepsValid(db: Db, row: Enrollment)
    requires Valid(db) && row.course in db.courses && !HasRow(db.enrollments, row.student, row.course)
    ensures Valid(db.(enrollments := db.enrollments[db.nextEnrollmentId := row],
                      nextEnrollmentId := db.nextEnrollmentId + 1))
  {
    var m := db.enrollments[db.nextEnrollmentId := row];
    forall i, j | i in m && j in m && m[i].student == m[j].student && m[i].course == m[j].course
      ensures i == j
    {
    }
  }

  /** The row the instructor routes' guarded SELECT finds: enrollment `id`,
      joined with its course whose `instructor_id` is the caller and with
      its student's user row, in status `from`. */
  predicate Selected(db: Db, caller: UserId, id: EnrollmentId, from: Status) {
    && id in db.enrollments
    && db.enrollments[id].course in db.courses
    && db.courses[db.enrollments[id].course].instructor == caller
    && db.enrollments[id].student in db.users
    && db.enrollments[id].status == from
  }

  /** The notification an instructor route writes for the row's student. */
  function StudentNotice(e: Enrollment, title: string, kind: string): Notification {
    Notification(e.student, title, kind, Some(e.course))
  }

  /** The five instructor actions on an enrollment row. */
  datatype Action = Approve | Reject | Block | Unblock | Remove

  /** What an action leaves of the row. */
  datatype After = Becomes(status: Status) | Deleted

  /** The lifecycle's transition table: from which status an action may be
      taken, and what it leaves. */
  function Next(s: Status, a: Action): Option<After> {
    match (s, a)
    case (Pending, Approve) => Some(Becomes(Approved))
    case (Pending, Reject) => Some(Becomes(Rejected))
    case (Approved, Block) => Some(Becomes(Blocked))
    case (Blocked, Unblock) => Some(Becomes(Approved))
    case (Approved, Remove) => Some(Deleted)
    case _ => None
  }

  /** The status an action's guarded SELECT requires. */
  function Source(a: Action): Status {
    match a
    case Approve => Pending
    case Reject => Pending
    case Block => Approved
    case Unblock => Blocked
    case Remove => Approved
  }

  /** The notification title and type each action writes. */
  function NoticeTitle(a: Action): string {
    match a
    case Approve => "Enrollment Approved"
    case Reject => "Enrollment Not Approved"
    case Block => "Course Access Blocked"
    case Unblock => "Course Access Restored"
    case Remove => "Removed from Course"
  }

  function NoticeKind(a: Action): string {
    match a
    case Approve => "success"
    case Reject => "warning"
    case Block => "warning"
    case Unblock => "success"
    case Remove => "warning"
  }

  /** The row after the action: approve also sets `approved_at`; reject,
      block and unblock change the status only; remove deletes the row. */
  function Apply(e: Enrollment, a: Action): Option<Enrollment> {
    match a
    case Approve => Some(e.(status := Approved, approvedAt := true))
    case Reject => Some(e.(status := Rejected))
    case Block => Some(e.(status := Blocked))
    case Unblock => Some(e.(status := Approved))
    case Remove => None
  }

  /** `instructor_approve_enrollment`, `instructor_reject_enrollment`,
      `instructor_block_student`, `instructor_unblock_student` and
      `instructor_remove_student`: behind `instructor_required`, a guarded
      SELECT on id, ownership and status, then the UPDATE (or DELETE) and
      the student's notification in one commit. Admins pass the decorator
      but not the ownership filter. */
  function Act(db: Db, caller: UserId, id: EnrollmentId, a: Action, fault: bool): (r: Reply)
    requires Valid(db)
    ensures Valid(r.db)
    ensures r.outcome != Done ==> r.db == db
    ensures r.outcome == Done <==>
      Access.InstructorRequired(db, caller) && Selected(db, caller, id, Source(a)) && !fault
    ensures r.outcome == Done ==>
      ChangedRow(db, r.db, id, Apply(db.enrollments[id], a),
                 StudentNotice(db.enrollments[id], NoticeTitle(a), NoticeKind(a)))
  {
    if !Access.InstructorRequired(db, caller) then Reply(db, AccessDenied)
    else if !Selected(db, caller, id, Source(a)) then Reply(db, NotFoundOrProcessed)
    else if fault then Reply(db, StorageError)
    else
      var e := db.enrollments[id];
      var rows := match Apply(e, a)
        case Some(e') => db.enrollments[id := e']
        case None => db.enrollments - {id};
      Reply(db.(enrollments := rows,
                notifications := db.notifications + [StudentNotice(e, NoticeTitle(a), NoticeKind(a))]),
            Done)
  }

  /** Every successful action follows the transition table, and an action
      the table does not allow from the row's status always fails. */
  lemma {:induction false} ActFollowsTable(db: Db, caller: UserId, id: EnrollmentId, a: Action, fault: bool)
    requires Valid(db)
    ensures var r := Act(db, caller, id, a, fault);
      r.outcome == Done ==>
        match Next(db.enrollments[id].status, a)
        case None => false
        case Some(Deleted) => id !in r.db.enrollments
        case Some(Becomes(s)) => id in r.db.enrollments && r.db.enrollments[id].status == s
    ensures id in db.enrollments && Next(db.enrollments[id].status, a).None? ==>
      Act(db, caller, id, a, fault).outcome != Done
  {
    var r := Act(db, caller, id, a, fault);
    if r.outcome == Done {
      assert Selected(db, caller, id, Source(a));
      match a
      case Approve =>
      case Reject =>
      case Block =>
      case Unblock =>
      case Remove =>
    }
  }

  /** Block, unblock and reject change the status and nothing else of the
      row: `approved_at`, `progress_percentage` and the manual override
      stay as they were; approve only adds `approved_at`, so once set it is
      never cleared. */
  lemma ActKeepsProgressAndStamp(db: Db, caller: UserId, id: EnrollmentId, a: Action, fault: bool)
    requires Valid(db)
    requires Act(db, caller, id, a, fault).outcome == Done && a != Remove
    ensures var e, e' := db.enrollments[id], Act(db, caller, id, a, fault).db.enrollments[id];
      && e'.student == e.student && e'.course == e.course
      && e'.progress == e.progress && e'.manualOverride == e.manualOverride
      && (e'.approvedAt <==> e.approvedAt || a == Approve)
  {
  }

  /** Only the owner acts: when the caller is not the instructor of the
      row's course (an admin included), every action fails and the
      database is unchanged. */
  lemma OnlyOwnerActs(db: Db, caller: UserId, id: EnrollmentId, a: Action, fault: bool)
    requires Valid(db)
    requires id in db.enrollments && db.enrollments[id].course in db.courses
    requires db.courses[db.enrollments[id].course].instructor != caller
    ensures Act(db, caller, id, a, fault).outcome != Done
    ensures Act(db, caller, id, a, fault).db == db
  {
  }

  /** Unblocking a row just blocked restores the enrollments table exactly;
      the two notifications stay in the log. */
  lemma {:induction false} BlockThenUnblock(db: Db, caller: UserId, id: EnrollmentId)
    requires Valid(db)
    requires Act(db, caller, id, Block, false).outcome == Done
    ensures var mid := Act(db, caller, id, Block, false).db;
      && Act(mid, caller, id, Unblock, false).outcome == Done
      && Act(mid, caller, id, Unblock, false).db.enrollments == db.enrollments
      && |Act(mid, caller, id, Unblock, false).db.notifications| == |db.notifications| + 2
  {
    var mid := Act(db, caller, id, Block, false).db;
    var e := db.enrollments[id];
    assert mid.enrollments == db.enrollments[id := e.(status := Blocked)];
    assert mid.users == db.users && mid.courses == db.courses;
    assert Selected(mid, caller, id, Blocked);
    var fin := Act(mid, caller, id, Unblock, false).db;
    assert fin.enrollments == db.enrollments[id := e.(status := Approved)];
    assert e.(status := Approved) == e;
  }

  /** A rejected row is final: no instructor action changes it. */
  lemma RejectedIsFinal(db: Db, caller: UserId, id: EnrollmentId, a: Action, fault: bool)
    requires Valid(db)
    requires id in db.enrollments && db.enrollments[id].status == Rejected
    ensures Act(db, caller, id, a, fault).outcome != Done
    ensures Act(db, caller, id, a, fault).db == db
  {
  }

  /** While a student has a row for a course, in any status (rejected
      included), a request naming that course's code never succeeds. */
  lemma ExistingRowBlocksRequest(db: Db, id: EnrollmentId, rawCode: string, rawKey: string,
                                                    checkKey: (string, string) -> bool, fault: bool)
    requires Valid(db)
    requires id in db.enrollments && db.enrollments[id].course in db.courses
    requires NormalizeCode(rawCode) == db.courses[db.enrollments[id].course].code
    ensures Request(db, db.enrollments[id].student, rawCode, rawKey, checkKey, fault).outcome != Done
  {
  }

  /** Removing a student deletes the only row of the pair, so the student
      may request the course again afterwards. */
  lemma {:induction false} RemoveReopensRequest(db: Db, caller: UserId, id: EnrollmentId)
    requires Valid(db)
    requires Act(db, caller, id, Remove, false).outcome == Done
    ensures !HasRow(Act(db, caller, id, Remove, false).db.enrollments,
                    db.enrollments[id].student, db.enrollments[id].course)
  {
    var m := Act(db, caller, id, Remove, false).db.enrollments;
    assert m == db.enrollments - {id};
  }

  /** Approving never looks at `max_students`: a course of capacity 1 with
      one approved student and a second pending request ends with two
      approved students when the instructor approves the request. */
  lemma ApproveIgnoresCapacity()
    ensures exists db: Db, caller: UserId, id: EnrollmentId ::
      && Valid(db)
      && id in db.enrollments && db.enrollments[id].course in db.courses
      && ApprovedCount(db.enrollments, db.enrollments[id].course)
           == db.courses[db.enrollments[id].course].maxStudents
      && Act(db, caller, id, Approve, false).outcome == Done
      && ApprovedCount(Act(db, caller, id, Approve, false).db.enrollments, db.enrollments[id].course)
           > db.courses[db.enrollments[id].course].maxStudents
  {
    var teacher := User(Instructor, AccountApproved, None, true, true);
    var pupil := User(Student, AccountApproved, None, false, true);
    var course := Course("CS101", "Intro", 1, 1, Some("h"), true);
    var a := Enrollment(2, 7, Approved, true, 0.0, None);
    var b := Enrollment(3, 7, Pending, false, 0.0, None);
    var db := Db(map[1 := teacher, 2 := pupil, 3 := pupil], map[7 := course], 8,
                 map[10 := a, 11 := b], 12, map[], map[], map[], [], true);
    assert ApprovedRows(db.enrollments, 7) == {10};
    var r := Act(db, 1, 11, Approve, false);
    assert Access.InstructorRequired(db, 1);
    assert r.outcome == Done;
    assert ApprovedRows(r.db.enrollments, 7) == {10, 11};
  }

  /** `instructor_create_course`, behind `instructor_required`: the code is
      stripped and upper-cased, title and key stripped; each must be
      non-empty, then the capacity field must read as an integer, the key
      must have at least 6 characters, and the code must be unused by any
      course (active or not). The course is inserted active, owned by the
      caller, with the hash of the key. */
  function CreateCourse(db: Db, caller: UserId, rawCode: string, rawTitle: string, rawKey: string,
                        capacityField: Option<string>, hashKey: string -> string, fault: bool): (r: Reply)
    requires Valid(db)
    ensures Valid(r.db)
    ensures r.outcome != Done ==> r.db == db
    ensures r.outcome == Done <==>
      && Access.InstructorRequired(db, caller)
      && NormalizeCode(rawCode) != [] && Text.Strip(rawTitle) != []
      && Capacity(capacityField).Some?
      && |Text.Strip(rawKey)| >= 6
      && !CodeInUse(db.courses, NormalizeCode(rawCode))
      && !fault
    ensures r.outcome == BadCapacity <==>
      && Access.InstructorRequired(db, caller)
      && NormalizeCode(rawCode) != [] && Text.Strip(rawTitle) != [] && Text.Strip(rawKey) != []
      && Capacity(capacityField).None?
    ensures r.outcome == Done ==>
      && db.nextCourseId !in db.courses
      && r.db == db.(courses := db.courses[db.nextCourseId :=
                       Course(NormalizeCode(rawCode), Text.Strip(rawTitle), caller, Capacity(capacityField).value,
                              Some(hashKey(Text.Strip(rawKey))), true)],
                     nextCourseId := db.nextCourseId + 1)
  {
    if !Access.InstructorRequired(db, caller) then Reply(db, AccessDenied)
    else
      var code := NormalizeCode(rawCode);
      var title := Text.Strip(rawTitle);
      var key := Text.Strip(rawKey);
      if code == [] then Reply(db, MissingCode)
      else if title == [] then Reply(db, MissingTitle)
      else if key == [] then Reply(db, MissingKey)
      else if Capacity(capacityField).None? then Reply(db, BadCapacity)
      else if |key| < 6 then Reply(db, KeyTooShort)
      else if CodeInUse(db.courses, code) then Reply(db, CodeTaken)
      else if fault then Reply(db, StorageError)
      else
        var c := Course(code, title, caller, Capacity(capacityField).value, Some(hashKey(key)), true);
        AddCourseKeepsValid(db, c);
        Reply(db.(courses := db.courses[db.nextCourseId := c], nextCourseId := db.nextCourseId + 1), Done)
  }

  /** `int(request.form.get('max_students', 50))`: 50 when the form has no
      such field, otherwise what `int` makes of it (None where it raises). */
  function Capacity(field: Option<string>): Option<int> {
    match field
    case None => Some(50)
    case Some(raw) => Text.ParseInt(raw)
  }

  /** A course is created with the capacity typed, or 50 when the form
      leaves the field out; a blank capacity fails even with a short key. */
  lemma CapacityReadings(n: nat)
    ensures Capacity(None) == Some(50)
    ensures Capacity(Some(Text.NatToString(n))) == Some(n)
    ensures Capacity(Some("")) == None
  {
    Text.ParseIntNatToString(n);
  }

  /** `SELECT id FROM courses WHERE course_code = ?` finds a row. */
  predicate CodeInUse(courses: map<CourseId, Course>, code: string) {
    exists id :: id in courses && courses[id].code == code
  }

  lemma AddCourseKeepsValid(db: Db, c: Course)
    requires Valid(db) && !CodeInUse(db.courses, c.code)
    ensures Valid(db.(courses := db.courses[db.nextCourseId := c], nextCourseId := db.nextCourseId + 1))
  {
    var m := db.courses[db.nextCourseId := c];
    forall i, j | i in m && j in m && m[i].code == m[j].code ensures i == j {
      if i != db.nextCourseId && j != db.nextCourseId {
        assert m[i] == db.courses[i] && m[j] == db.courses[j];
      }
    }
  }

  /** Upper-casing an already upper-cased, stripped code changes nothing. */
  lemma NormalizeCodeIdempotent(raw: string)
    ensures NormalizeCode(NormalizeCode(raw)) == NormalizeCode(raw)
  {
    var s := Text.Strip(raw);
    var u := Text.Upper(s);
    assert forall k :: 0 <= k < |u| ==> (Text.IsSpace(u[k]) <==> Text.IsSpace(s[k]));
    assert u == [] || (!Text.IsSpace(u[0]) && !Text.IsSpace(u[|u| - 1]));
    assert Text.StripStart(u) == u;
    assert Text.StripEnd(u) == u;
    assert Text.Upper(u) == u;
  }

  /** A course just created can be joined: an active student who types the
      same code and key gets a pending row, provided the hash verifier
      accepts what the hasher produced and the capacity is positive. */
  lemma {:induction false} CreateThenRequest(db: Db, teacher: UserId, student: UserId,
                                             rawCode: string, rawTitle: string, rawKey: string,
                                             capacityField: Option<string>, hashKey: string -> string,
                                             checkKey: (string, string) -> bool)
    requires Valid(db)
    requires CreateCourse(db, teacher, rawCode, rawTitle, rawKey, capacityField, hashKey, false).outcome == Done
    requires Authenticated(db, student) && db.users[student].role == Student
    requires forall k :: checkKey(hashKey(k), k)
    requires hashKey(Text.Strip(rawKey)) != ""
    requires Capacity(capacityField).Some? && Capacity(capacityField).value > 0
    ensures Request(CreateCourse(db, teacher, rawCode, rawTitle, rawKey, capacityField, hashKey, false).db,
                    student, rawCode, rawKey, checkKey, false).outcome == Done
  {
    var db1 := CreateCourse(db, teacher, rawCode, rawTitle, rawKey, capacityField, hashKey, false).db;
    var cid := db.nextCourseId;
    assert db1.courses[cid].keyHash == Some(hashKey(Text.Strip(rawKey)));
    assert Enrollable(db1, cid, NormalizeCode(rawCode));
    assert db1.enrollments == db.enrollments;
    RequestFound(db1, student, rawCode, rawKey, checkKey, cid);
    EmptyCourseAdmits(db1, student, cid, Text.Strip(rawKey), checkKey);
  }

  /** A course with no rows yet, room for one and a key that passes
      admits the first student who asks. */
  lemma EmptyCourseAdmits(db: Db, student: UserId, cid: CourseId, key: string,
                          checkKey: (string, string) -> bool)
    requires Valid(db) && cid in db.courses
    requires KeyAccepted(db.courses[cid], key, checkKey) && db.courses[cid].maxStudents > 0
    requires forall j :: j in db.enrollments ==> db.enrollments[j].course != cid
    ensures Admit(db, student, cid, key, checkKey, false).outcome == Done
  {
    assert forall id :: id !in ApprovedRows(db.enrollments, cid);
    assert ApprovedRows(db.enrollments, cid) == {};
  }

  /** With the caller a student, both fields present and the course found,
      the request is decided by `Admit`. */
  lemma RequestFound(db: Db, caller: UserId, rawCode: string, rawKey: string,
                     checkKey: (string, string) -> bool, cid: CourseId)
    requires Valid(db) && Authenticated(db, caller) && db.users[caller].role == Student
    requires NormalizeCode(rawCode) != [] && Text.Strip(rawKey) != []
    requires Enrollable(db, cid, NormalizeCode(rawCode))
    ensures Request(db, caller, rawCode, rawKey, checkKey, false)
            == Admit(db, caller, cid, Text.Strip(rawKey), checkKey, false)
  {
    OnlyEnrollable(db, cid, NormalizeCode(rawCode));
  }

  /** `admin_approve_instructor` and `admin_reject_instructor`, behind
      `admin_required`: a pending instructor account becomes approved or
      rejected, recording who decided, with a notification to the
      instructor. */
  function DecideInstructor(db: Db, caller: UserId, target: UserId, approve: bool, fault: bool): (r: Reply)
    requires Valid(db)
    ensures Valid(r.db)
    ensures r.outcome != Done ==> r.db == db
    ensures r.outcome == Done <==>
      Access.AdminRequired(db, caller) && target in db.users
      && Access.IsInstructorPending(db.users[target]) && !fault
    ensures r.outcome == Done ==>
      && r.db.users.Keys == db.users.Keys
      && r.db.users[target].approval == (if approve then AccountApproved else AccountRejected)
      && r.db.users[target].approvedBy == Some(caller) && r.db.users[target].approvedAt
      && (forall u :: u in db.users && u != target ==> r.db.users[u] == db.users[u])
      && |r.db.notifications| == |db.notifications| + 1
      && r.db.notifications[|db.notifications|].user == target
    ensures r.outcome == Done ==>
      r.db == db.(users := db.users[target := db.users[target].(
                    approval := if approve then AccountApproved else AccountRejected,
                    approvedBy := Some(caller), approvedAt := true)],
                  notifications := db.notifications + [DecisionNotice(target, approve)])
  {
    if !Access.AdminRequired(db, caller) then Reply(db, AccessDenied)
    else if !(target in db.users && Access.IsInstructorPending(db.users[target])) then Reply(db, NotFoundOrProcessed)
    else if fault then Reply(db, StorageError)
    else
      var u := db.users[target];
      var n := DecisionNotice(target, approve);
      Reply(db.(users := db.users[target := u.(approval := if approve then AccountApproved else AccountRejected,
                                              approvedBy := Some(caller), approvedAt := true)],
                notifications := db.notifications + [n]),
            Done)
  }

  /** The notification each decision sends: a success titled as an
      approval, or an error titled as a rejection. */
  function DecisionNotice(target: UserId, approve: bool): (n: Notification)
    ensures n.user == target && n.related == None
    ensures n.kind == (if approve then "success" else "error")
    ensures n.title == (if approve then "Instructor Account Approved" else "Instructor Application Rejected")
  {
    if approve then Notification(target, "Instructor Account Approved", "success", None)
    else Notification(target, "Instructor Application Rejected", "error", None)
  }

  /** An approved instructor passes `instructor_required`; a rejected one
      never does. */
  lemma DecisionGovernsAccess(db: Db, caller: UserId, target: UserId, approve: bool)
    requires Valid(db)
    requires DecideInstructor(db, caller, target, approve, false).outcome == Done
    ensures Access.InstructorRequired(DecideInstructor(db, caller, target, approve, false).db, target)
            <==> approve && db.users[target].active
  {
  }
}
