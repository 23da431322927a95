/** Multiple-choice quiz submission (`student_submit_quiz`): the grading
    loop over the quiz's questions in id order, the stored submission that
    a resubmission replaces, and the progress recompute that follows. */
module Quiz {
  import opened Wrappers
  import opened Tables
  import Text
  import Ratios
  import Progress

  /** The running totals of the grading loop and the answer rows it
      collects: `total_score`, `total_possible`, `mcq_answers`. */
  datatype Tally = Tally(score: int, possible: int, answers: seq<McqAnswer>)

  /** The posted form with every value stripped, as the route reads each
      one: `request.form.get(f'question_{id}', '').strip()`. The raw form
      maps a question id to the text posted for it. */
  function Stripped(raw: map<QuestionId, string>): (form: map<QuestionId, string>)
    ensures form.Keys == raw.Keys
    ensures forall id :: id in raw ==> form[id] == Text.Strip(raw[id])
  {
    map id | id in raw :: Text.Strip(raw[id])
  }

  /** The stripped selection for a question, "" when none was posted. */
  function Chosen(form: map<QuestionId, string>, q: Question): string {
    if q.id in form then form[q.id] else ""
  }

  /** The answer row for a non-blank selection: correct exactly when it
      equals the stored answer, earning the question's points then and
      nothing otherwise. */
  function Mark(q: Question, selected: string): (a: McqAnswer)
    ensures a.question == q.id && a.selected == selected
    ensures a.isCorrect <==> selected == q.correctAnswer
    ensures a.isCorrect ==> a.pointsEarned == q.points
    ensures !a.isCorrect ==> a.pointsEarned == 0
  {
    var ok := selected == q.correctAnswer;
    McqAnswer(q.id, selected, ok, if ok then q.points else 0)
  }

  /** The grading loop over a prefix of the questions: every question adds
      its points to the possible total; only an answered one adds a row,
      and its points when correct. */
  function Grade(qs: seq<Question>, form: map<QuestionId, string>): (t: Tally)
    ensures |t.answers| <= |qs|
  {
    if qs == [] then Tally(0, 0, [])
    else Step(Grade(qs[..|qs| - 1], form), qs[|qs| - 1], Chosen(form, qs[|qs| - 1]))
  }

  /** One pass of the loop body for question `q` with selection `sel`. */
  function Step(t: Tally, q: Question, sel: string): (t': Tally)
    ensures t'.possible == t.possible + q.points
    ensures sel == "" ==> t'.score == t.score && t'.answers == t.answers
    ensures sel != "" ==> t'.score == t.score + Mark(q, sel).pointsEarned && t'.answers == t.answers + [Mark(q, sel)]
  {
    if sel == "" then Tally(t.score, t.possible + q.points, t.answers)
    else
      var a := Mark(q, sel);
      Tally(t.score + a.pointsEarned, t.possible + q.points, t.answers + [a])
  }

  /** The points of all questions. */
  function SumPoints(qs: seq<Question>): int {
    if qs == [] then 0 else SumPoints(qs[..|qs| - 1]) + qs[|qs| - 1].points
  }

  /** The points of the answer rows. */
  function SumEarned(answers: seq<McqAnswer>): int {
    if answers == [] then 0 else SumEarned(answers[..|answers| - 1]) + answers[|answers| - 1].pointsEarned
  }

  /** One more question for the grading loop. */
  lemma GradeStep(qs: seq<Question>, i: nat, form: map<QuestionId, string>)
    requires i < |qs|
    ensures Grade(qs[..i + 1], form) == Step(Grade(qs[..i], form), qs[i], Chosen(form, qs[i]))
  {
    assert qs[..i + 1][..i] == qs[..i];
  }

  /** The grading loop as `student_submit_quiz` runs it. */
  method GradeQuiz(qs: seq<Question>, form: map<QuestionId, string>) returns (t: Tally)
    ensures t == Grade(qs, form)
  {
    var score, possible, answers := 0, 0, [];
    var i := 0;
    while i < |qs|
      invariant 0 <= i <= |qs|
      invariant Tally(score, possible, answers) == Grade(qs[..i], form)
    {
      var q := qs[i];
      var sel := Chosen(form, q);
      GradeStep(qs, i, form);
      assert Grade(qs[..i + 1], form) == Step(Tally(score, possible, answers), q, sel);
      if sel != "" {
        var a := Mark(q, sel);
        score := score + a.pointsEarned;
        answers := answers + [a];
      }
      possible := possible + q.points;
      i := i + 1;
    }
    assert qs[..|qs|] == qs;
    t := Tally(score, possible, answers);
  }

  /** The possible total is the sum of all points, answered or not; the
      score is the sum of the points the answer rows record. */
  lemma {:induction false} GradeSums(qs: seq<Question>, form: map<QuestionId, string>)
    ensures Grade(qs, form).possible == SumPoints(qs)
    ensures Grade(qs, form).score == SumEarned(Grade(qs, form).answers)
  {
    if qs != [] {
      var t := Grade(qs[..|qs| - 1], form);
      GradeSums(qs[..|qs| - 1], form);
      var a := Grade(qs, form).answers;
      if a != t.answers {
        assert a[..|a| - 1] == t.answers;
      }
    }
  }

  /** Every answer row belongs to a question of the quiz, is non-blank, and
      is marked correct exactly when it matches that question's answer. */
  lemma {:induction false} AnswersAreMarked(qs: seq<Question>, form: map<QuestionId, string>)
    ensures forall a <- Grade(qs, form).answers ::
      a.selected != "" && exists q <- qs :: q.id == a.question && a == Mark(q, a.selected)
  {
    if qs != [] {
      AnswersAreMarked(qs[..|qs| - 1], form);
      forall a <- Grade(qs, form).answers
        ensures a.selected != "" && exists q <- qs :: q.id == a.question && a == Mark(q, a.selected)
      {
        if a in Grade(qs[..|qs| - 1], form).answers {
          var q :| q in qs[..|qs| - 1] && q.id == a.question && a == Mark(q, a.selected);
          assert q in qs;
        } else {
          assert qs[|qs| - 1] in qs;
        }
      }
    }
  }

  /** With points that are never negative (the column's default is 1), the
      score lies between 0 and the possible total. */
  lemma {:induction false} ScoreBounds(qs: seq<Question>, form: map<QuestionId, string>)
    requires forall q <- qs :: q.points >= 0
    ensures 0 <= Grade(qs, form).score <= Grade(qs, form).possible
  {
    if qs != [] {
      assert forall q <- qs[..|qs| - 1] :: q in qs;
      ScoreBounds(qs[..|qs| - 1], form);
      assert qs[|qs| - 1] in qs;
    }
  }

  /** Answering every question correctly earns every point. */
  lemma {:induction false} AllCorrectFullMarks(qs: seq<Question>, form: map<QuestionId, string>)
    requires forall q <- qs :: q.correctAnswer != "" && Chosen(form, q) == q.correctAnswer
    ensures Grade(qs, form).score == Grade(qs, form).possible
    ensures |Grade(qs, form).answers| == |qs|
  {
    if qs != [] {
      assert forall q <- qs[..|qs| - 1] :: q in qs;
      AllCorrectFullMarks(qs[..|qs| - 1], form);
      assert qs[|qs| - 1] in qs;
    }
  }

  /** A blank form answers nothing and scores nothing. */
  lemma {:induction false} BlankFormScoresZero(qs: seq<Question>)
    ensures Grade(qs, map[]).score == 0 && Grade(qs, map[]).answers == []
  {
    if qs != [] {
      BlankFormScoresZero(qs[..|qs| - 1]);
    }
  }

  /** `(total_score / total_possible * 100) if total_possible > 0 else 0`. */
  function Percentage(score: int, possible: int): (p: real)
    ensures possible <= 0 ==> p == 0.0
    ensures 0 <= score <= possible ==> 0.0 <= p <= 100.0
    ensures 0 < possible == score ==> p == 100.0
  {
    if possible > 0 then
      if 0 <= score <= possible then Ratios.Percent(score, possible); (score as real / possible as real) * 100.0
      else (score as real / possible as real) * 100.0
    else 0.0
  }

  datatype Outcome = Done | AccessDenied | QuizNotFound | StorageError

  /** The flash message reports the score out of the possible total. */
  datatype QuizReply = QuizReply(db: Db, outcome: Outcome, score: int, possible: int)

  /** The access query: the assignment exists, its course exists, and the
      caller has an approved enrollment in that course. Neither the
      assignment type nor its state is checked. */
  predicate CanTake(db: Db, caller: UserId, quiz: AssignmentId) {
    && quiz in db.assignments
    && db.assignments[quiz].course in db.courses
    && exists id :: id in db.enrollments && db.enrollments[id].student == caller
         && db.enrollments[id].course == db.assignments[quiz].course && db.enrollments[id].status == Approved
  }

  /** The quiz's questions in `ORDER BY q.id` order. */
  function QuestionsOf(db: Db, quiz: AssignmentId): seq<Question> {
    if quiz in db.questions then db.questions[quiz] else []
  }

  /** The submission the grading stores, replacing any earlier one together
      with its answer rows. */
  function Stored(t: Tally): Submission {
    Submission(Some(t.score as real), t.answers)
  }

  /** `student_submit_quiz`: students only; the access query; grading of
      the stripped selections; the submission row (updated when one exists,
      inserted otherwise) and its answer rows in one commit; then
      `update_student_progress` for the quiz's course. */
  ghost function SubmitQuiz(db: Db, caller: UserId, quiz: AssignmentId, posted: map<QuestionId, string>,
                            fault: bool): (r: QuizReply)
    requires Valid(db)
    ensures Valid(r.db)
    ensures r.outcome != Done ==> r.db == db
    ensures r.outcome == Done <==>
      Authenticated(db, caller) && db.users[caller].role == Student && CanTake(db, caller, quiz) && !fault
    ensures r.outcome == Done ==>
      && r.score == Grade(QuestionsOf(db, quiz), Stripped(posted)).score
      && r.possible == Grade(QuestionsOf(db, quiz), Stripped(posted)).possible
      && r.db == Progress.UpdateStudentProgress(
                   db.(submissions := db.submissions[(quiz, caller) := Stored(Grade(QuestionsOf(db, quiz), Stripped(posted)))]),
                   caller, db.assignments[quiz].course).db
  {
    if !Authenticated(db, caller) || db.users[caller].role != Student then QuizReply(db, AccessDenied, 0, 0)
    else if !CanTake(db, caller, quiz) then QuizReply(db, QuizNotFound, 0, 0)
    else if fault then QuizReply(db, StorageError, 0, 0)
    else
      var t := Grade(QuestionsOf(db, quiz), Stripped(posted));
      var saved := db.(submissions := db.submissions[(quiz, caller) := Stored(t)]);
      QuizReply(Progress.UpdateStudentProgress(saved, caller, db.assignments[quiz].course).db, Done, t.score, t.possible)
  }

  /** The progress recompute touches only enrollments. */
  lemma RecomputeKeepsSubmissions(db: Db, student: UserId, course: CourseId)
    requires Valid(db)
    ensures var after := Progress.UpdateStudentProgress(db, student, course).db;
      after == db.(enrollments := after.enrollments)
  {
  }

  /** A successful submission changes the submissions and, through the
      recompute, the enrollments' stored percentages, and nothing the
      access query reads. */
  lemma {:induction false} SubmitKeepsAccess(db: Db, caller: UserId, quiz: AssignmentId,
                                             posted: map<QuestionId, string>)
    requires Valid(db)
    requires SubmitQuiz(db, caller, quiz, posted, false).outcome == Done
    ensures var after := SubmitQuiz(db, caller, quiz, posted, false).db;
      && after.users == db.users && after.courses == db.courses
      && after.assignments == db.assignments && after.questions == db.questions
      && after.submissions == db.submissions[(quiz, caller) := Stored(Grade(QuestionsOf(db, quiz), Stripped(posted)))]
      && CanTake(after, caller, quiz)
  {
    var course := db.assignments[quiz].course;
    var saved := db.(submissions := db.submissions[(quiz, caller) := Stored(Grade(QuestionsOf(db, quiz), Stripped(posted)))]);
    RecomputeKeepsSubmissions(saved, caller, course);
    var after := SubmitQuiz(db, caller, quiz, posted, false).db;
    var id :| id in db.enrollments && db.enrollments[id].student == caller
              && db.enrollments[id].course == course && db.enrollments[id].status == Approved;
    assert after.enrollments[id].status == Approved;
  }

  /** A resubmission replaces the earlier one: what is stored afterwards is
      what the last attempt alone would store, and no second submission
      row appears. */
  lemma {:induction false} ResubmissionReplaces(db: Db, caller: UserId, quiz: AssignmentId,
                                                first: map<QuestionId, string>, second: map<QuestionId, string>)
    requires Valid(db)
    requires SubmitQuiz(db, caller, quiz, first, false).outcome == Done
    ensures var mid := SubmitQuiz(db, caller, quiz, first, false).db;
      var r := SubmitQuiz(mid, caller, quiz, second, false);
      && r.outcome == Done
      && r.db.submissions == db.submissions[(quiz, caller) := Stored(Grade(QuestionsOf(db, quiz), Stripped(second)))]
  {
    SubmitKeepsAccess(db, caller, quiz, first);
    var mid := SubmitQuiz(db, caller, quiz, first, false).db;
    var t1 := Grade(QuestionsOf(db, quiz), Stripped(first));
    var t2 := Grade(QuestionsOf(db, quiz), Stripped(second));
    assert mid.submissions == db.submissions[(quiz, caller) := Stored(t1)];
    assert QuestionsOf(mid, quiz) == QuestionsOf(db, quiz);
    assert SubmitQuiz(mid, caller, quiz, second, false).outcome == Done;
    SubmitKeepsAccess(mid, caller, quiz, second);
    var fin := SubmitQuiz(mid, caller, quiz, second, false).db;
    assert fin.submissions == mid.submissions[(quiz, caller) := Stored(t2)];
    UpdateTwice(db.submissions, (quiz, caller), Stored(t1), Stored(t2));
  }

  lemma UpdateTwice<K, V>(m: map<K, V>, k: K, a: V, b: V)
    ensures m[k := a][k := b] == m[k := b]
  {
  }

  /** A submission never moves what the pages display for a row whose
      progress the instructor has set by hand. */
  lemma {:induction false} SubmitKeepsOverride(db: Db, caller: UserId, quiz: AssignmentId,
                                               posted: map<QuestionId, string>, id: EnrollmentId)
    requires Valid(db)
    requires SubmitQuiz(db, caller, quiz, posted, false).outcome == Done
    requires id in db.enrollments && db.enrollments[id].manualOverride.Some?
    ensures var after := SubmitQuiz(db, caller, quiz, posted, false).db;
      id in after.enrollments && Progress.Display(after.enrollments[id]) == Progress.Display(db.enrollments[id])
  {
  }

  /** Where `assignments.is_active` exists, a submission to a counted quiz
      marks it submitted, and the student's row of that course then stores
      the automatic progress of the new state, which is no lower than
      before. */
  lemma {:induction false} SubmitAdvancesProgress(db: Db, caller: UserId, quiz: AssignmentId,
                                                  posted: map<QuestionId, string>, id: EnrollmentId)
    requires Valid(db) && db.quizActiveColumn
    requires SubmitQuiz(db, caller, quiz, posted, false).outcome == Done
    requires db.assignments[quiz].isQuiz && db.assignments[quiz].active
    requires id in db.enrollments && db.enrollments[id].student == caller
    requires db.enrollments[id].course == db.assignments[quiz].course
    ensures var after := SubmitQuiz(db, caller, quiz, posted, false).db;
      var course := db.assignments[quiz].course;
      && quiz in Progress.SubmittedIds(after, course, caller)
      && after.enrollments[id].progress == Progress.AutoProgress(after, course, caller)
      && Progress.AutoProgress(db, course, caller) <= Progress.AutoProgress(after, course, caller)
  {
    var course := db.assignments[quiz].course;
    var t := Grade(QuestionsOf(db, quiz), Stripped(posted));
    var saved := db.(submissions := db.submissions[(quiz, caller) := Stored(t)]);
    var after := SubmitQuiz(db, caller, quiz, posted, false).db;
    RecomputeKeepsSubmissions(saved, caller, course);
    assert after.assignments == saved.assignments && after.submissions == saved.submissions;
    assert Progress.QuizIds(after, course) == Progress.QuizIds(saved, course);
    assert Progress.SubmittedIds(after, course, caller) == Progress.SubmittedIds(saved, course, caller);
    assert quiz in Progress.QuizIds(saved, course);
    Progress.SubmissionNeverLowersProgress(db, course, caller, quiz, Stored(t));
  }
}
