/** The SQLite database of app.py as mutable state, and the enrollment
    and progress routes as methods that update its tables in place: the
    student's request, the instructor's actions on a row, and the bulk
    progress route, whose work is a loop of UPDATEs. Each method is proved
    against the function of module `Enrollment` or `Progress` that states
    the route's whole effect on the database value. */
module Store {
  import opened Wrappers
  import opened Tables
  import Text
  import Access
  import Lifecycle = Enrollment
  import Progress

  class Database {
    var users: map<UserId, User>
    var courses: map<CourseId, Course>
    var nextCourseId: CourseId
    var enrollments: map<EnrollmentId, Enrollment>
    var nextEnrollmentId: EnrollmentId
    var assignments: map<AssignmentId, Assignment>
    var questions: map<AssignmentId, seq<Question>>
    var submissions: map<(AssignmentId, UserId), Submission>
    var notifications: seq<Notification>
    var quizActiveColumn: bool

    /** The tables as one value. */
    function Snapshot(): Db
      reads this
    {
      Db(users, courses, nextCourseId, enrollments, nextEnrollmentId, assignments,
         questions, submissions, notifications, quizActiveColumn)
    }

    /** Opens a database holding the given tables. */
    constructor(db: Db)
      ensures Snapshot() == db
    {
      users, courses, nextCourseId := db.users, db.courses, db.nextCourseId;
      enrollments, nextEnrollmentId := db.enrollments, db.nextEnrollmentId;
      assignments, questions, submissions := db.assignments, db.questions, db.submissions;
      notifications, quizActiveColumn := db.notifications, db.quizActiveColumn;
    }

    /** `student_enroll`: the checks in order, then the INSERT of the
        pending row and the instructor's notification. */
    method Request(caller: UserId, rawCode: string, rawKey: string,
                   checkKey: (string, string) -> bool, fault: bool)
      returns (outcome: Lifecycle.Outcome)
      requires Valid(Snapshot())
      modifies this
      ensures var r := Lifecycle.Request(old(Snapshot()), caller, rawCode, rawKey, checkKey, fault);
        Snapshot() == r.db && outcome == r.outcome
    {
      var db := Snapshot();
      if !Authenticated(db, caller) || db.users[caller].role != Student {
        return Lifecycle.AccessDenied;
      }
      var code := Lifecycle.NormalizeCode(rawCode);
      var key := Text.Strip(rawKey);
      if code == [] || key == [] {
        return Lifecycle.MissingInput;
      }
      if cid :| cid in db.courses && db.courses[cid].code == code && db.courses[cid].active
                && db.courses[cid].instructor in db.users {
        Lifecycle.OnlyEnrollable(db, cid, code);
        outcome := Admit(caller, cid, key, checkKey, fault);
      } else {
        assert Lifecycle.FindCourse(db, code).None?;
        return Lifecycle.CourseNotFound;
      }
    }

    /** The key, duplicate and capacity checks of `student_enroll`, then
        the INSERT and the instructor's notification. */
    method Admit(caller: UserId, cid: CourseId, key: string,
                 checkKey: (string, string) -> bool, fault: bool)
      returns (outcome: Lifecycle.Outcome)
      requires Valid(Snapshot()) && cid in courses
      modifies this
      ensures var r := Lifecycle.Admit(old(Snapshot()), caller, cid, key, checkKey, fault);
        Snapshot() == r.db && outcome == r.outcome
    {
      var c := courses[cid];
      if !Lifecycle.KeyAccepted(c, key, checkKey) {
        return Lifecycle.InvalidKey;
      }
      if HasRow(enrollments, caller, cid) {
        return Lifecycle.AlreadyRequested;
      }
      if ApprovedCount(enrollments, cid) >= c.maxStudents {
        return Lifecycle.CourseFull;
      }
      if fault {
        return Lifecycle.StorageError;
      }
      enrollments := enrollments[nextEnrollmentId := Lifecycle.PendingRow(caller, cid)];
      nextEnrollmentId := nextEnrollmentId + 1;
      notifications := notifications
        + [Notification(c.instructor, "New Enrollment Request", "info", Some(cid))];
      return Lifecycle.Done;
    }

    /** The five instructor actions: the guarded SELECT, then the UPDATE
        or DELETE of the row and the student's notification. */
    method Act(caller: UserId, id: EnrollmentId, a: Lifecycle.Action, fault: bool)
      returns (outcome: Lifecycle.Outcome)
      requires Valid(Snapshot())
      modifies this
      ensures var r := Lifecycle.Act(old(Snapshot()), caller, id, a, fault);
        Snapshot() == r.db && outcome == r.outcome
    {
      var db := Snapshot();
      if !Access.InstructorRequired(db, caller) {
        return Lifecycle.AccessDenied;
      }
      if !Lifecycle.Selected(db, caller, id, Lifecycle.Source(a)) {
        return Lifecycle.NotFoundOrProcessed;
      }
      if fault {
        return Lifecycle.StorageError;
      }
      var e := enrollments[id];
      match Lifecycle.Apply(e, a) {
        case Some(e') =>
          enrollments := enrollments[id := e'];
        case None =>
          enrollments := enrollments - {id};
      }
      notifications := notifications
        + [Lifecycle.StudentNotice(e, Lifecycle.NoticeTitle(a), Lifecycle.NoticeKind(a))];
      return Lifecycle.Done;
    }

    /** `instructor_set_progress_bulk`: the checks of the route in order,
        then one pass per approved student that writes the value into the
        student's row as override and stored percentage and appends the
        student's notification. Everything but the order of the
        notifications is the one `Progress.SetProgressBulk` states. */
    method SetProgressBulk(caller: UserId, course: CourseId, value: Progress.FormValue, fault: bool)
      returns (code: Progress.Code, count: nat)
      requires Valid(Snapshot())
      modifies this
      ensures var r := Progress.SetProgressBulk(old(Snapshot()), caller, course, value, fault);
        && code == r.code && count == r.count
        && Snapshot() == r.db.(notifications := notifications)
      ensures code != Progress.Ok ==> Snapshot() == old(Snapshot())
      ensures code == Progress.Ok ==>
        && |old(notifications)| <= |notifications|
        && notifications[..|old(notifications)|] == old(notifications)
        && Progress.NoticesFor(notifications[|old(notifications)|..],
                               Progress.ApprovedStudents(old(Snapshot()), course), course)
    {
      var db := Snapshot();
      if !Access.InstructorRequired(db, caller) {
        return Progress.Redirected, 0;
      }
      if !Progress.Owns(db, caller, course) {
        return Progress.Forbidden, 0;
      }
      if Progress.Blank(value) {
        return Progress.NoValue, 0;
      }
      if value.parsed.None? {
        return Progress.NotANumber, 0;
      }
      var v := value.parsed.value;
      if v < 0.0 || v > 100.0 {
        return Progress.OutOfRange, 0;
      }
      if fault {
        return Progress.ServerError, 0;
      }
      var students := Progress.ApprovedStudents(db, course);
      WriteAll(students, course, v);
      return Progress.Ok, |students|;
    }

    /** The pass of the route over the selected students: the rows and
        the notifications of `Rows`, stored in place. */
    method WriteAll(students: set<UserId>, course: CourseId, v: real)
      modifies this
      ensures enrollments == Progress.BulkRows(old(enrollments), course, students, v)
      ensures |old(notifications)| <= |notifications|
      ensures notifications[..|old(notifications)|] == old(notifications)
      ensures Progress.NoticesFor(notifications[|old(notifications)|..], students, course)
      ensures Snapshot().(enrollments := old(enrollments), notifications := old(notifications)) == old(Snapshot())
    {
      var rows, sent := Rows(enrollments, students, course, v);
      enrollments := rows;
      notifications := notifications + sent;
      assert notifications[..|old(notifications)|] == old(notifications);
      assert notifications[|old(notifications)|..] == sent;
    }
  }

  /** The loop of the bulk route: each pass UPDATEs one student's rows of
      the course and queues that student's notification. */
  method Rows(m: map<EnrollmentId, Enrollment>, students: set<UserId>, course: CourseId, v: real)
    returns (rows: map<EnrollmentId, Enrollment>, sent: seq<Notification>)
    ensures rows == Progress.BulkRows(m, course, students, v)
    ensures Progress.NoticesFor(sent, students, course)
  {
    rows, sent := m, [];
    var remaining := students;
    while remaining != {}
      invariant remaining <= students
      invariant rows == Progress.BulkRows(m, course, students - remaining, v)
      invariant Progress.NoticesFor(sent, students - remaining, course)
      decreases |remaining|
    {
      ghost var some := Progress.Pick(remaining);  // shows the choice below can be made
      var u: UserId :| u in remaining;
      RowsStep(m, students, remaining, course, v, rows, sent, u);
      rows := Progress.UpdatePair(rows, u, course, Progress.SetManual(v));
      sent := sent + [Progress.ProgressNotice(u, course)];
      remaining := remaining - {u};
    }
    assert students - remaining == students;
  }

  /** One pass of the loop of `Rows` keeps its invariants. */
  lemma RowsStep(m: map<EnrollmentId, Enrollment>, students: set<UserId>, remaining: set<UserId>,
                 course: CourseId, v: real, rows: map<EnrollmentId, Enrollment>, sent: seq<Notification>,
                 u: UserId)
    requires remaining <= students && u in remaining
    requires rows == Progress.BulkRows(m, course, students - remaining, v)
    requires Progress.NoticesFor(sent, students - remaining, course)
    ensures remaining - {u} <= students
    ensures Progress.UpdatePair(rows, u, course, Progress.SetManual(v))
            == Progress.BulkRows(m, course, students - (remaining - {u}), v)
    ensures Progress.NoticesFor(sent + [Progress.ProgressNotice(u, course)], students - (remaining - {u}), course)
  {
    var done := students - remaining;
    assert done + {u} == students - (remaining - {u});
    BulkRowsStep(m, course, done, u, v);
    NoticesSnoc(sent, done, u, course);
  }

  /** One pass of the loop extends the set of students already written. */
  lemma BulkRowsStep(m: map<EnrollmentId, Enrollment>, course: CourseId, done: set<UserId>, u: UserId, v: real)
    ensures Progress.UpdatePair(Progress.BulkRows(m, course, done, v), u, course, Progress.SetManual(v))
            == Progress.BulkRows(m, course, done + {u}, v)
  {
  }

  /** One more student's notification extends the notices sent so far. */
  lemma NoticesSnoc(sent: seq<Notification>, done: set<UserId>, u: UserId, course: CourseId)
    requires u !in done && Progress.NoticesFor(sent, done, course)
    ensures Progress.NoticesFor(sent + [Progress.ProgressNotice(u, course)], done + {u}, course)
  {
    var ns := sent + [Progress.ProgressNotice(u, course)];
    forall w | w in done + {u} ensures exists k :: 0 <= k < |ns| && ns[k].user == w {
      if w == u {
        assert ns[|sent|].user == w;
      } else {
        var k :| 0 <= k < |sent| && sent[k].user == w;
        assert ns[k].user == w;
      }
    }
  }
}
