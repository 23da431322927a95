/** Course progress in app.py: the automatic, quiz-based percentage that
    `update_student_progress` computes and stores, the instructor's manual
    override set for one student or for the whole course, and what the
    pages display (`COALESCE(manual_progress_override, progress_percentage)`). */
module Progress {
  import opened Wrappers
  import opened Tables
  import Access
  import Sets
  import Ratios

  /** The quizzes `update_student_progress` counts for a course:
      `assignment_type = 'quiz' AND is_active = 1`. */
  function QuizIds(db: Db, course: CourseId): set<AssignmentId> {
    set a | a in db.assignments && db.assignments[a].course == course
              && db.assignments[a].isQuiz && db.assignments[a].active
  }

  /** The counted quizzes the student has a submission for
      (`COUNT(DISTINCT a.id)` over the join with `assignment_submissions`). */
  function SubmittedIds(db: Db, course: CourseId, student: UserId): (s: set<AssignmentId>)
    ensures s <= QuizIds(db, course)
    ensures forall a :: a in s <==> a in QuizIds(db, course) && (a, student) in db.submissions
  {
    set a | a in QuizIds(db, course) && (a, student) in db.submissions
  }

  /** `(submitted_quizzes / total_quizzes) * 100`, or 0 without quizzes:
      a percentage that is 0 exactly when nothing counted is submitted and
      100 exactly when every counted quiz is. */
  function AutoProgress(db: Db, course: CourseId, student: UserId): (p: real)
    ensures 0.0 <= p <= 100.0
    ensures p == 0.0 <==> SubmittedIds(db, course, student) == {}
    ensures p == 100.0 <==> QuizIds(db, course) != {} && SubmittedIds(db, course, student) == QuizIds(db, course)
  {
    var total := |QuizIds(db, course)|;
    var done := |SubmittedIds(db, course, student)|;
    Sets.SubsetCard(SubmittedIds(db, course, student), QuizIds(db, course));
    if total == 0 then 0.0
    else
      Ratios.Percent(done, total);
      (done as real / total as real) * 100.0
  }

  /** A further submission never lowers the automatic progress. */
  lemma {:induction false} SubmissionNeverLowersProgress(db: Db, course: CourseId, student: UserId,
                                                         a: AssignmentId, s: Submission)
    ensures AutoProgress(db, course, student)
            <= AutoProgress(db.(submissions := db.submissions[(a, student) := s]), course, student)
  {
    var db' := db.(submissions := db.submissions[(a, student) := s]);
    assert QuizIds(db', course) == QuizIds(db, course);
    var before, after := SubmittedIds(db, course, student), SubmittedIds(db', course, student);
    assert before <= after;
    Sets.SubsetCard(before, after);
    Sets.SubsetCard(after, QuizIds(db, course));
    var t := |QuizIds(db, course)|;
    if t > 0 {
      assert |before| as real / t as real <= |after| as real / t as real;
    }
  }

  /** What the pages show: `COALESCE(e.manual_progress_override, e.progress_percentage)`. */
  function Display(e: Enrollment): (p: real)
    ensures e.manualOverride.Some? ==> p == e.manualOverride.value
    ensures e.manualOverride.None? ==> p == e.progress
  {
    e.manualOverride.GetOr(e.progress)
  }

  /** The row belongs to the pair the progress UPDATEs name. */
  predicate OfPair(e: Enrollment, student: UserId, course: CourseId) {
    e.student == student && e.course == course
  }

  /** The three UPDATEs on `enrollments` the progress code issues. */
  datatype Write =
    | SetAuto(value: real)     // SET progress_percentage = ?
    | ClearOverride            // SET manual_progress_override = NULL
    | SetManual(value: real)   // SET manual_progress_override = ?, progress_percentage = ?

  function Apply(e: Enrollment, w: Write): (r: Enrollment)
    ensures r.student == e.student && r.course == e.course
    ensures r.status == e.status && r.approvedAt == e.approvedAt
  {
    match w
    case SetAuto(v) => e.(progress := v)
    case ClearOverride => e.(manualOverride := None)
    case SetManual(v) => e.(manualOverride := Some(v), progress := v)
  }

  /** `UPDATE enrollments SET ... WHERE student_id = ? AND course_id = ?`:
      every row of the pair is written, whatever its status, and no other. */
  function UpdatePair(m: map<EnrollmentId, Enrollment>, student: UserId, course: CourseId, w: Write)
    : (r: map<EnrollmentId, Enrollment>)
    ensures r.Keys == m.Keys
    ensures forall id :: id in m && !OfPair(m[id], student, course) ==> r[id] == m[id]
    ensures forall id :: id in m && OfPair(m[id], student, course) ==> r[id] == Apply(m[id], w)
  {
    map id | id in m :: if OfPair(m[id], student, course) then Apply(m[id], w) else m[id]
  }

  lemma UpdatePairKeepsValid(db: Db, student: UserId, course: CourseId, w: Write)
    requires Valid(db)
    ensures Valid(db.(enrollments := UpdatePair(db.enrollments, student, course, w)))
  {
  }

  /** The override `update_student_progress` reads for the pair (its first
      SELECT); under `UNIQUE(student_id, course_id)` there is at most one row. */
  ghost function PairOverride(m: map<EnrollmentId, Enrollment>, student: UserId, course: CourseId): (o: Option<real>)
    ensures o.Some? ==> exists id :: id in m && OfPair(m[id], student, course) && m[id].manualOverride == o
    ensures o.None? ==> forall id :: id in m && OfPair(m[id], student, course) ==> m[id].manualOverride.None?
  {
    if exists id :: id in m && OfPair(m[id], student, course) && m[id].manualOverride.Some? then
      var id :| id in m && OfPair(m[id], student, course) && m[id].manualOverride.Some?;
      m[id].manualOverride
    else None
  }

  /** What `update_student_progress` returns, with the database after it. */
  datatype Recomputed = Recomputed(db: Db, value: real)

  /** The try block of `update_student_progress` when its queries run:
      store the automatic percentage in every row of the pair, keep the
      override, and return the override if set, else the automatic value. */
  ghost function Recompute(db: Db, student: UserId, course: CourseId): (r: Recomputed)
    requires Valid(db)
    ensures Valid(r.db)
    ensures r.db == db.(enrollments := UpdatePair(db.enrollments, student, course,
                                                  SetAuto(AutoProgress(db, course, student))))
    ensures r.value == PairOverride(db.enrollments, student, course).GetOr(AutoProgress(db, course, student))
  {
    var auto := AutoProgress(db, course, student);
    UpdatePairKeepsValid(db, student, course, SetAuto(auto));
    Recomputed(db.(enrollments := UpdatePair(db.enrollments, student, course, SetAuto(auto))),
               PairOverride(db.enrollments, student, course).GetOr(auto))
  }

  /** `update_student_progress` as written: both counting queries filter on
      `assignments.is_active`, which the schema `init_db` creates does not
      have; then the query raises, the handler returns 0, and nothing is
      written. */
  ghost function UpdateStudentProgress(db: Db, student: UserId, course: CourseId): (r: Recomputed)
    requires Valid(db)
    ensures Valid(r.db)
    ensures !db.quizActiveColumn ==> r == Recomputed(db, 0.0)
    ensures db.quizActiveColumn ==> r == Recompute(db, student, course)
  {
    if !db.quizActiveColumn then Recomputed(db, 0.0) else Recompute(db, student, course)
  }

  /** Where the column exists, the value returned is the value the pages
      then display for the pair's row, and it is the automatic progress
      unless an override is set, which it leaves alone. */
  lemma {:induction false} RecomputeReturnsDisplayed(db: Db, student: UserId, course: CourseId, id: EnrollmentId)
    requires Valid(db) && id in db.enrollments && OfPair(db.enrollments[id], student, course)
    ensures var r := Recompute(db, student, course);
      && r.value == Display(r.db.enrollments[id])
      && r.db.enrollments[id].manualOverride == db.enrollments[id].manualOverride
      && (db.enrollments[id].manualOverride.None? ==> r.value == AutoProgress(db, course, student))
      && (db.enrollments[id].manualOverride.Some? ==> r.value == Display(db.enrollments[id]))
  {
    var m := db.enrollments;
    var o := PairOverride(m, student, course);
    if o.Some? {
      var j :| j in m && OfPair(m[j], student, course) && m[j].manualOverride == o;
      assert j == id;
    }
  }

  /** With the schema as `init_db` creates it, a student who has submitted
      every quiz of the course is reported at 0 and the stored percentage
      does not move. */
  lemma MissingColumnHidesCompletion()
    ensures exists db: Db, student: UserId, course: CourseId ::
      && Valid(db) && !db.quizActiveColumn
      && AutoProgress(db, course, student) == 100.0
      && UpdateStudentProgress(db, student, course).value == 0.0
  {
    var db := Db(map[], map[], 0, map[], 0, map[5 := Assignment(7, true, true)], map[],
                 map[(5, 2) := Submission(None, [])], [], false);
    assert QuizIds(db, 7) == {5};
    assert SubmittedIds(db, 7, 2) == {5};
    assert UpdateStudentProgress(db, 2, 7).value == 0.0;
  }

  /** What the progress routes answer. */
  datatype Code =
    | Ok
    | Redirected     // `instructor_required` turned the caller away
    | Forbidden      // 403: not the caller's course
    | NoValue        // 400: the bulk route got no value
    | NotANumber     // 400: `float()` raised
    | OutOfRange     // 400: below 0 or above 100
    | ServerError    // 500: an exception, rolled back

  /** The `progress` form field: absent, or given with what Python's
      `float()` makes of it (None when it raises). */
  datatype FormValue = Missing | Given(raw: string, parsed: Option<real>)

  /** `progress is None or progress == ''`. */
  predicate Blank(v: FormValue) {
    v.Missing? || v.raw == ""
  }

  /** A value that parses and lies in [0, 100]. */
  predicate Acceptable(v: FormValue) {
    !Blank(v) && v.parsed.Some? && 0.0 <= v.parsed.value <= 100.0
  }

  /** The owner check of both routes: `SELECT * FROM courses WHERE id = ?
      AND instructor_id = ?` (inactive courses included). */
  predicate Owns(db: Db, caller: UserId, course: CourseId) {
    course in db.courses && db.courses[course].instructor == caller
  }

  function ProgressNotice(student: UserId, course: CourseId): Notification {
    Notification(student, "Course Progress Updated", "info", Some(course))
  }

  /** The reply of the single-student route: `progress` and `is_manual`. */
  datatype SetReply = SetReply(db: Db, code: Code, progress: real, manual: bool)

  /** `instructor_set_student_progress`. A blank value clears the override
      (committed at once), re-runs `update_student_progress` and reports
      its value as automatic; any other value must parse and lie in
      [0, 100] and is written as both the override and the stored
      percentage. The student is notified either way. The reply of the
      set path reads the student's name after the commit, so for a student
      id with no user row the writes stand and the route answers 500. */
  ghost function SetStudentProgress(db: Db, caller: UserId, course: CourseId, student: UserId,
                                    value: FormValue, fault: bool): (r: SetReply)
    requires Valid(db)
    ensures Valid(r.db)
    ensures !Committed(db, caller, course, value, fault) ==> r.db == db && r.code != Ok
    ensures r.code == Ok <==>
      Committed(db, caller, course, value, fault) && (Blank(value) || student in db.users)
    ensures r.code == Forbidden <==> Access.InstructorRequired(db, caller) && !Owns(db, caller, course)
    ensures Committed(db, caller, course, value, fault) && !Blank(value) ==>
      && r.manual && r.progress == value.parsed.value
      && r.db == db.(enrollments := UpdatePair(db.enrollments, student, course, SetManual(r.progress)),
                     notifications := db.notifications + [ProgressNotice(student, course)])
    ensures Committed(db, caller, course, value, fault) && Blank(value) ==>
      && r.code == Ok && !r.manual
      && r.db.enrollments.Keys == db.enrollments.Keys
      && (forall id :: id in r.db.enrollments && OfPair(r.db.enrollments[id], student, course) ==>
            r.db.enrollments[id].manualOverride.None?)
      && r.db.notifications == db.notifications + [ProgressNotice(student, course)]
    ensures Committed(db, caller, course, value, fault) && Blank(value) ==> (
      UpdatePairKeepsValid(db, student, course, ClearOverride);
      var u := UpdateStudentProgress(db.(enrollments := UpdatePair(db.enrollments, student, course, ClearOverride)),
                                     student, course);
      r.db == u.db.(notifications := u.db.notifications + [ProgressNotice(student, course)])
      && r.progress == u.value)
  {
    if !Access.InstructorRequired(db, caller) then SetReply(db, Redirected, 0.0, false)
    else if !Owns(db, caller, course) then SetReply(db, Forbidden, 0.0, false)
    else if Blank(value) then
      if fault then SetReply(db, ServerError, 0.0, false)
      else
        UpdatePairKeepsValid(db, student, course, ClearOverride);
        var cleared := db.(enrollments := UpdatePair(db.enrollments, student, course, ClearOverride));
        var u := UpdateStudentProgress(cleared, student, course);
        SetReply(u.db.(notifications := u.db.notifications + [ProgressNotice(student, course)]), Ok, u.value, false)
    else if value.parsed.None? then SetReply(db, NotANumber, 0.0, false)
    else if value.parsed.value < 0.0 || value.parsed.value > 100.0 then SetReply(db, OutOfRange, 0.0, false)
    else if fault then SetReply(db, ServerError, 0.0, false)
    else
      var p := value.parsed.value;
      UpdatePairKeepsValid(db, student, course, SetManual(p));
      SetReply(db.(enrollments := UpdatePair(db.enrollments, student, course, SetManual(p)),
                   notifications := db.notifications + [ProgressNotice(student, course)]),
               if student in db.users then Ok else ServerError, p, true)
  }

  /** The single-student route gets as far as its commit: an owner, a
      blank or acceptable value, and no exception before the commit. */
  predicate Committed(db: Db, caller: UserId, course: CourseId, value: FormValue, fault: bool) {
    Access.InstructorRequired(db, caller) && Owns(db, caller, course) && !fault
    && (Blank(value) || Acceptable(value))
  }

  /** After a successful set, every row of the pair displays the value set. */
  lemma SetIsDisplayed(db: Db, caller: UserId, course: CourseId, student: UserId, value: FormValue)
    requires Valid(db)
    requires SetStudentProgress(db, caller, course, student, value, false).code == Ok && !Blank(value)
    ensures var m := SetStudentProgress(db, caller, course, student, value, false).db.enrollments;
      forall id :: id in m && OfPair(m[id], student, course) ==> Display(m[id]) == value.parsed.value
  {
  }

  /** Where the column exists, clearing the override makes the pair's row
      display exactly the progress the route reports. */
  lemma {:induction false} ClearShowsReported(db: Db, caller: UserId, course: CourseId, student: UserId,
                                              value: FormValue, id: EnrollmentId)
    requires Valid(db) && db.quizActiveColumn && Blank(value)
    requires id in db.enrollments && OfPair(db.enrollments[id], student, course)
    requires SetStudentProgress(db, caller, course, student, value, false).code == Ok
    ensures var r := SetStudentProgress(db, caller, course, student, value, false);
      Display(r.db.enrollments[id]) == r.progress == AutoProgress(db, course, student)
  {
    var cleared := db.(enrollments := UpdatePair(db.enrollments, student, course, ClearOverride));
    UpdatePairKeepsValid(db, student, course, ClearOverride);
    RecomputeReturnsDisplayed(cleared, student, course, id);
    assert QuizIds(cleared, course) == QuizIds(db, course);
    assert SubmittedIds(cleared, course, student) == SubmittedIds(db, course, student);
  }

  /** With the schema as `init_db` creates it, clearing an override set
      earlier reports 0 as the automatic progress while the row keeps
      displaying the old manual value, since the earlier set wrote it into
      `progress_percentage` and the recompute never overwrites it. */
  lemma {:induction false} ClearLeavesStaleDisplay(db: Db, caller: UserId, course: CourseId, student: UserId,
                                                   id: EnrollmentId, v: real, raw: string)
    requires Valid(db) && !db.quizActiveColumn
    requires id in db.enrollments && OfPair(db.enrollments[id], student, course)
    requires SetStudentProgress(db, caller, course, student, Given(raw, Some(v)), false).code == Ok
    requires raw != "" && v != 0.0
    ensures var mid := SetStudentProgress(db, caller, course, student, Given(raw, Some(v)), false).db;
      var r := SetStudentProgress(mid, caller, course, student, Missing, false);
      && r.code == Ok && r.progress == 0.0 && !r.manual
      && Display(r.db.enrollments[id]) == v
  {
    var mid := SetStudentProgress(db, caller, course, student, Given(raw, Some(v)), false).db;
    assert mid.enrollments[id].progress == v;
    assert mid.users == db.users && mid.courses == db.courses;
  }

  /** The students the bulk route's SELECT lists: approved rows of the
      course joined with their user row. */
  function ApprovedStudents(db: Db, course: CourseId): set<UserId> {
    set id | id in db.enrollments && db.enrollments[id].course == course
               && db.enrollments[id].status == Approved && db.enrollments[id].student in db.users
             :: db.enrollments[id].student
  }

  /** The loop's UPDATEs: each listed student's rows of the course get the
      value as override and stored percentage. */
  function BulkRows(m: map<EnrollmentId, Enrollment>, course: CourseId, students: set<UserId>, v: real)
    : (r: map<EnrollmentId, Enrollment>)
    ensures r.Keys == m.Keys
    ensures forall id :: id in m && m[id].course == course && m[id].student in students ==>
              r[id] == Apply(m[id], SetManual(v))
    ensures forall id :: id in m && !(m[id].course == course && m[id].student in students) ==> r[id] == m[id]
  {
    map id | id in m :: if m[id].course == course && m[id].student in students then Apply(m[id], SetManual(v)) else m[id]
  }

  /** `ns` is one progress notification per listed student, in some order. */
  ghost predicate NoticesFor(ns: seq<Notification>, students: set<UserId>, course: CourseId) {
    && |ns| == |students|
    && (forall k :: 0 <= k < |ns| ==> ns[k] == ProgressNotice(ns[k].user, course) && ns[k].user in students)
    && (forall u :: u in students ==> exists k :: 0 <= k < |ns| && ns[k].user == u)
  }

  /** The notifications in the order the SELECT returns the students (an
      order SQLite leaves open; this picks one). */
  ghost function Notices(students: set<UserId>, course: CourseId): (ns: seq<Notification>)
    ensures NoticesFor(ns, students, course)
    decreases |students|
  {
    if |students| == 0 then []
    else
      var u := Pick(students);
      var rest := Notices(students - {u}, course);
      var ns := [ProgressNotice(u, course)] + rest;
      NoticesCons(u, rest, students, course);
      ns
  }

  ghost function Pick<T>(s: set<T>): (x: T)
    requires |s| > 0
    ensures x in s
  {
    assert s != {};
    var x :| x in s; x
  }

  lemma NoticesCons(u: UserId, rest: seq<Notification>, students: set<UserId>, course: CourseId)
    requires u in students && NoticesFor(rest, students - {u}, course)
    ensures NoticesFor([ProgressNotice(u, course)] + rest, students, course)
  {
    var ns := [ProgressNotice(u, course)] + rest;
    forall w | w in students ensures exists k :: 0 <= k < |ns| && ns[k].user == w {
      if w == u {
        assert ns[0].user == w;
      } else {
        assert w in students - {u};
        var k :| 0 <= k < |rest| && rest[k].user == w;
        assert ns[k + 1].user == w;
      }
    }
  }

  /** The reply of the bulk route: the number of students updated. */
  datatype BulkReply = BulkReply(db: Db, code: Code, count: nat)

  lemma BulkRowsKeepValid(db: Db, course: CourseId, students: set<UserId>, v: real)
    requires Valid(db)
    ensures Valid(db.(enrollments := BulkRows(db.enrollments, course, students, v)))
  {
  }

  /** `instructor_set_progress_bulk`: behind the owner check, the value must
      be present, parse and lie in [0, 100]; every approved student of the
      course then gets it as override and stored percentage, and a
      notification; the reply counts the students. */
  ghost function SetProgressBulk(db: Db, caller: UserId, course: CourseId, value: FormValue, fault: bool)
    : (r: BulkReply)
    requires Valid(db)
    ensures Valid(r.db)
    ensures r.code != Ok ==> r.db == db && r.count == 0
    ensures r.code == Ok <==>
      Access.InstructorRequired(db, caller) && Owns(db, caller, course) && Acceptable(value) && !fault
    ensures r.code == NoValue <==>
      Access.InstructorRequired(db, caller) && Owns(db, caller, course) && Blank(value)
    ensures r.code == Ok ==>
      && r.count == |ApprovedStudents(db, course)|
      && r.db == db.(enrollments := BulkRows(db.enrollments, course, ApprovedStudents(db, course), value.parsed.value),
                     notifications := r.db.notifications)
      && |db.notifications| <= |r.db.notifications|
      && r.db.notifications[..|db.notifications|] == db.notifications
      && NoticesFor(r.db.notifications[|db.notifications|..], ApprovedStudents(db, course), course)
  {
    if !Access.InstructorRequired(db, caller) then BulkReply(db, Redirected, 0)
    else if !Owns(db, caller, course) then BulkReply(db, Forbidden, 0)
    else if Blank(value) then BulkReply(db, NoValue, 0)
    else if value.parsed.None? then BulkReply(db, NotANumber, 0)
    else if value.parsed.value < 0.0 || value.parsed.value > 100.0 then BulkReply(db, OutOfRange, 0)
    else if fault then BulkReply(db, ServerError, 0)
    else
      var students := ApprovedStudents(db, course);
      var ns := Notices(students, course);
      BulkRowsKeepValid(db, course, students, value.parsed.value);
      assert (db.notifications + ns)[..|db.notifications|] == db.notifications;
      assert (db.notifications + ns)[|db.notifications|..] == ns;
      BulkReply(db.(enrollments := BulkRows(db.enrollments, course, students, value.parsed.value),
                    notifications := db.notifications + ns),
                Ok, |students|)
  }

  /** The bulk route leaves each approved student's row exactly as the
      single-student route would with the same value, so it displays the
      value. */
  lemma {:induction false} BulkAgreesWithSingle(db: Db, caller: UserId, course: CourseId, value: FormValue,
                                                id: EnrollmentId)
    requires Valid(db)
    requires SetProgressBulk(db, caller, course, value, false).code == Ok
    requires id in db.enrollments && db.enrollments[id].course == course
    requires db.enrollments[id].status == Approved && db.enrollments[id].student in db.users
    ensures var m := SetProgressBulk(db, caller, course, value, false).db.enrollments;
      && m[id] == SetStudentProgress(db, caller, course, db.enrollments[id].student, value, false).db.enrollments[id]
      && Display(m[id]) == value.parsed.value
  {
    BulkRowIsSet(db, caller, course, value, id);
    SingleRowIsSet(db, caller, course, value, id);
    var row := Apply(db.enrollments[id], SetManual(value.parsed.value));
    assert Display(row) == value.parsed.value;
  }

  lemma BulkRowIsSet(db: Db, caller: UserId, course: CourseId, value: FormValue, id: EnrollmentId)
    requires Valid(db)
    requires SetProgressBulk(db, caller, course, value, false).code == Ok
    requires id in db.enrollments && db.enrollments[id].course == course
    requires db.enrollments[id].status == Approved && db.enrollments[id].student in db.users
    ensures Access.InstructorRequired(db, caller) && Owns(db, caller, course) && Acceptable(value)
    ensures SetProgressBulk(db, caller, course, value, false).db.enrollments[id]
            == Apply(db.enrollments[id], SetManual(value.parsed.value))
  {
    assert db.enrollments[id].student in ApprovedStudents(db, course);
  }

  lemma SingleRowIsSet(db: Db, caller: UserId, course: CourseId, value: FormValue, id: EnrollmentId)
    requires Valid(db)
    requires Access.InstructorRequired(db, caller) && Owns(db, caller, course) && Acceptable(value)
    requires id in db.enrollments && db.enrollments[id].course == course
    ensures var single := SetStudentProgress(db, caller, course, db.enrollments[id].student, value, false);
      single.db.enrollments[id] == Apply(db.enrollments[id], SetManual(value.parsed.value))
  {
    assert Committed(db, caller, course, value, false) && !Blank(value);
  }

  /** Rows of other courses, and rows of the course that are not approved,
      are left as they were by the bulk route. */
  lemma {:induction false} BulkSparesOthers(db: Db, caller: UserId, course: CourseId, value: FormValue,
                                            id: EnrollmentId)
    requires Valid(db)
    requires SetProgressBulk(db, caller, course, value, false).code == Ok
    requires id in db.enrollments && (db.enrollments[id].course != course || db.enrollments[id].status != Approved)
    ensures SetProgressBulk(db, caller, course, value, false).db.enrollments[id] == db.enrollments[id]
  {
  }

  /** Running the bulk route twice with the same value leaves the
      enrollments as once, and both runs report the same count. */
  lemma {:induction false} BulkIdempotent(db: Db, caller: UserId, course: CourseId, value: FormValue)
    requires Valid(db)
    requires SetProgressBulk(db, caller, course, value, false).code == Ok
    ensures var once := SetProgressBulk(db, caller, course, value, false);
      var twice := SetProgressBulk(once.db, caller, course, value, false);
      twice.code == Ok && twice.db.enrollments == once.db.enrollments && twice.count == once.count
  {
    var once := SetProgressBulk(db, caller, course, value, false);
    var v := value.parsed.value;
    var students := ApprovedStudents(db, course);
    var m1 := BulkRows(db.enrollments, course, students, v);
    assert once.db.users == db.users && once.db.courses == db.courses && once.db.enrollments == m1;
    BulkKeepsStudents(db, once.db, course, v);
    assert Access.InstructorRequired(once.db, caller) == Access.InstructorRequired(db, caller);
    var twice := SetProgressBulk(once.db, caller, course, value, false);
    assert twice.code == Ok;
    assert twice.db.enrollments == BulkRows(m1, course, students, v);
    BulkRowsIdempotent(db.enrollments, course, students, v);
  }

  lemma BulkKeepsStudents(db: Db, db': Db, course: CourseId, v: real)
    requires db'.users == db.users
    requires db'.enrollments == BulkRows(db.enrollments, course, ApprovedStudents(db, course), v)
    ensures ApprovedStudents(db', course) == ApprovedStudents(db, course)
  {
  }

  lemma BulkRowsIdempotent(m: map<EnrollmentId, Enrollment>, course: CourseId, students: set<UserId>, v: real)
    ensures BulkRows(BulkRows(m, course, students, v), course, students, v) == BulkRows(m, course, students, v)
  {
  }

  // ---------------------------------------------------------------------
  // send_notification while the route's own write is open
  // ---------------------------------------------------------------------

  /** `send_notification`: a second connection INSERTs the notification and
      commits. SQLite admits one writer at a time, so while the route's own
      connection holds an uncommitted write, that INSERT waits out the
      30-second busy timeout, raises "database is locked", and the helper
      logs the error and returns False: nothing is stored. */
  function Send(notifications: seq<Notification>, n: Notification, routeWriting: bool): (r: seq<Notification>)
    ensures routeWriting ==> r == notifications
    ensures !routeWriting ==> r == notifications + [n]
  {
    if routeWriting then notifications else notifications + [n]
  }

  /** One `send_notification` per notice, in order. */
  function SendAll(notifications: seq<Notification>, ns: seq<Notification>, routeWriting: bool)
    : (r: seq<Notification>)
    ensures routeWriting ==> r == notifications
    ensures !routeWriting ==> r == notifications + ns
    decreases |ns|
  {
    if ns == [] then notifications
    else
      var r := SendAll(Send(notifications, ns[0], routeWriting), ns[1..], routeWriting);
      assert !routeWriting ==> notifications + [ns[0]] + ns[1..] == notifications + ns;
      r
  }

  /** `instructor_set_student_progress` as written: the set path calls
      `send_notification` after its UPDATE and before its commit, so the
      send finds the route's write open; the clear path has committed
      before it sends. */
  ghost function SetStudentProgressAsWritten(db: Db, caller: UserId, course: CourseId, student: UserId,
                                             value: FormValue, fault: bool): (r: SetReply)
    requires Valid(db)
    ensures Valid(r.db)
    ensures Committed(db, caller, course, value, fault) && !Blank(value) ==> r.db.notifications == db.notifications
  {
    if !Access.InstructorRequired(db, caller) then SetReply(db, Redirected, 0.0, false)
    else if !Owns(db, caller, course) then SetReply(db, Forbidden, 0.0, false)
    else if Blank(value) then
      if fault then SetReply(db, ServerError, 0.0, false)
      else
        UpdatePairKeepsValid(db, student, course, ClearOverride);
        var cleared := db.(enrollments := UpdatePair(db.enrollments, student, course, ClearOverride));
        var u := UpdateStudentProgress(cleared, student, course);
        SetReply(u.db.(notifications := Send(u.db.notifications, ProgressNotice(student, course), false)),
                 Ok, u.value, false)
    else if value.parsed.None? then SetReply(db, NotANumber, 0.0, false)
    else if value.parsed.value < 0.0 || value.parsed.value > 100.0 then SetReply(db, OutOfRange, 0.0, false)
    else if fault then SetReply(db, ServerError, 0.0, false)
    else
      var p := value.parsed.value;
      UpdatePairKeepsValid(db, student, course, SetManual(p));
      SetReply(db.(enrollments := UpdatePair(db.enrollments, student, course, SetManual(p)),
                   notifications := Send(db.notifications, ProgressNotice(student, course), true)),
               if student in db.users then Ok else ServerError, p, true)
  }

  /** Setting a value as written loses the student's notification, which
      sending after the commit delivers; every other effect is the same. */
  lemma SetNoticeLost(db: Db, caller: UserId, course: CourseId, student: UserId, value: FormValue)
    requires Valid(db) && Committed(db, caller, course, value, false) && !Blank(value)
    ensures var written := SetStudentProgressAsWritten(db, caller, course, student, value, false);
      var intended := SetStudentProgress(db, caller, course, student, value, false);
      && written.db.notifications == db.notifications
      && intended.db.notifications == db.notifications + [ProgressNotice(student, course)]
      && written == intended.(db := intended.db.(notifications := db.notifications))
  {
  }

  /** Clearing commits before it sends, so as written it already delivers
      the notification. */
  lemma ClearNoticeKept(db: Db, caller: UserId, course: CourseId, student: UserId, value: FormValue, fault: bool)
    requires Valid(db) && Blank(value)
    ensures SetStudentProgressAsWritten(db, caller, course, student, value, fault)
            == SetStudentProgress(db, caller, course, student, value, fault)
  {
  }

  /** `instructor_set_progress_bulk` as written: each student's
      `send_notification` runs inside the loop, after that student's
      UPDATE and before the one commit after the loop. */
  ghost function SetProgressBulkAsWritten(db: Db, caller: UserId, course: CourseId, value: FormValue, fault: bool)
    : (r: BulkReply)
    requires Valid(db)
    ensures Valid(r.db)
    ensures r.db.notifications == db.notifications
  {
    if !Access.InstructorRequired(db, caller) then BulkReply(db, Redirected, 0)
    else if !Owns(db, caller, course) then BulkReply(db, Forbidden, 0)
    else if Blank(value) then BulkReply(db, NoValue, 0)
    else if value.parsed.None? then BulkReply(db, NotANumber, 0)
    else if value.parsed.value < 0.0 || value.parsed.value > 100.0 then BulkReply(db, OutOfRange, 0)
    else if fault then BulkReply(db, ServerError, 0)
    else
      var students := ApprovedStudents(db, course);
      BulkRowsKeepValid(db, course, students, value.parsed.value);
      BulkReply(db.(enrollments := BulkRows(db.enrollments, course, students, value.parsed.value),
                    notifications := SendAll(db.notifications, Notices(students, course), true)),
                Ok, |students|)
  }

  /** As written, the bulk route stores none of the notifications that the
      intended route stores, one per approved student; its rows, code and
      count are the intended ones. */
  lemma BulkNoticesLost(db: Db, caller: UserId, course: CourseId, value: FormValue)
    requires Valid(db) && SetProgressBulk(db, caller, course, value, false).code == Ok
    ensures var written := SetProgressBulkAsWritten(db, caller, course, value, false);
      var intended := SetProgressBulk(db, caller, course, value, false);
      && written.db.notifications == db.notifications
      && |intended.db.notifications| == |db.notifications| + |ApprovedStudents(db, course)|
      && written == intended.(db := intended.db.(notifications := db.notifications))
  {
  }
}
