/** The rows of the LMS's SQLite tables that the enrollment, progress and
    quiz routes of app.py read and write, as one immutable value `Db`.
    Every table is a map from its integer primary key to its row. */
module Tables {
  import opened Wrappers

  type UserId = int
  type CourseId = int
  type EnrollmentId = int
  type AssignmentId = int
  type QuestionId = int

  /** `users.role`. */
  datatype Role = Student | Instructor | Admin

  /** `users.instructor_approval_status` ('pending', 'approved', 'rejected'). */
  datatype AccountStatus = AccountPending | AccountApproved | AccountRejected

  /** A row of `users`; `approvedAt` says whether `approved_at` is set. */
  datatype User = User(
    role: Role,
    approval: AccountStatus,
    approvedBy: Option<UserId>,
    approvedAt: bool,
    active: bool)

  /** `enrollments.status`. */
  datatype Status = Pending | Approved | Rejected | Blocked

  /** A row of `enrollments`. `approvedAt` says whether `approved_at` is set;
      `progress` is `progress_percentage`, `manualOverride` is
      `manual_progress_override` (NULL is None). */
  datatype Enrollment = Enrollment(
    student: UserId,
    course: CourseId,
    status: Status,
    approvedAt: bool,
    progress: real,
    manualOverride: Option<real>)

  /** A row of `courses`; `keyHash` is `enrollment_key_hash` (nullable). */
  datatype Course = Course(
    code: string,
    title: string,
    instructor: UserId,
    maxStudents: int,
    keyHash: Option<string>,
    active: bool)

  /** A row of `assignments`: its course, whether `assignment_type` is
      'quiz', and its `is_active` flag where the column exists. */
  datatype Assignment = Assignment(course: CourseId, isQuiz: bool, active: bool)

  /** A row of `quiz_questions`. */
  datatype Question = Question(id: QuestionId, points: int, correctAnswer: string)

  /** A row of `student_mcq_answers`. */
  datatype McqAnswer = McqAnswer(question: QuestionId, selected: string, isCorrect: bool, pointsEarned: int)

  /** A row of `assignment_submissions` (UNIQUE per assignment and student)
      together with the `student_mcq_answers` rows that point at it. */
  datatype Submission = Submission(grade: Option<real>, answers: seq<McqAnswer>)

  /** A row of `notifications`; the message text is left out. */
  datatype Notification = Notification(user: UserId, title: string, kind: string, related: Option<int>)

  /** The database. `quizActiveColumn` says whether `assignments` has the
      `is_active` column that the progress queries filter on; the schema
      that `init_db` creates does not declare it. */
  datatype Db = Db(
    users: map<UserId, User>,
    courses: map<CourseId, Course>,
    nextCourseId: CourseId,
    enrollments: map<EnrollmentId, Enrollment>,
    nextEnrollmentId: EnrollmentId,
    assignments: map<AssignmentId, Assignment>,
    questions: map<AssignmentId, seq<Question>>,
    submissions: map<(AssignmentId, UserId), Submission>,
    notifications: seq<Notification>,
    quizActiveColumn: bool)

  /** `UNIQUE(student_id, course_id)` on `enrollments`. */
  ghost predicate UniquePairs(m: map<EnrollmentId, Enrollment>) {
    forall i, j :: i in m && j in m && m[i].student == m[j].student && m[i].course == m[j].course ==> i == j
  }

  /** `UNIQUE` on `courses.course_code`. */
  ghost predicate UniqueCodes(m: map<CourseId, Course>) {
    forall i, j :: i in m && j in m && m[i].code == m[j].code ==> i == j
  }

  /** The constraints the schema enforces: the unique keys, AUTOINCREMENT
      never handing out an id that was already used, and enrollments only
      ever naming a course id that has been handed out. */
  ghost predicate Valid(db: Db) {
    && UniquePairs(db.enrollments)
    && UniqueCodes(db.courses)
    && (forall id :: id in db.enrollments ==> id < db.nextEnrollmentId)
    && (forall id :: id in db.courses ==> id < db.nextCourseId)
    && (forall id :: id in db.enrollments ==> db.enrollments[id].course < db.nextCourseId)
  }

  /** Some row exists for the pair, in any status. */
  predicate HasRow(m: map<EnrollmentId, Enrollment>, student: UserId, course: CourseId) {
    exists id :: id in m && m[id].student == student && m[id].course == course
  }

  /** The ids of the `approved` rows of a course. */
  function ApprovedRows(m: map<EnrollmentId, Enrollment>, course: CourseId): set<EnrollmentId> {
    set id | id in m && m[id].course == course && m[id].status == Approved
  }

  /** `SELECT COUNT(*) FROM enrollments WHERE course_id = ? AND status = 'approved'`. */
  function ApprovedCount(m: map<EnrollmentId, Enrollment>, course: CourseId): nat {
    |ApprovedRows(m, course)|
  }

  /** The logged-in user: Flask-Login loads only rows with `is_active = 1`. */
  predicate Authenticated(db: Db, caller: UserId) {
    caller in db.users && db.users[caller].active
  }
}
