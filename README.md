# LearnNest core in Dafny

This project models the core of LearnNest, a Flask learning-management
system, and proves properties of that model. The parts modelled are:

- the enrollment lifecycle of a (student, course) pair:
  - the student's request with an enrollment key;
  - the owning instructor's approve, reject, block, unblock and remove;
  - course creation;
  - the admin's decision on an instructor account;
- the progress bookkeeping on top of it:
  - the quiz-based automatic percentage of `update_student_progress`;
  - the manual override, set for one student or for a whole course;
  - the displayed value, `COALESCE(manual_progress_override, progress_percentage)`;
- scoring of a multiple-choice quiz submission;
- the small validators in `app.py`:
  - the role predicates and decorators, and the CSRF token check;
  - grade range, grade buckets and submission statistics;
  - chat-upload limits;
  - the direct-chat room name;
  - routing of a notification click;
- from `utils/pdf_generator.py`: the font choice and how the transcript and notes
  builders cut text into headings and paragraphs;
- from `templates/student/video_download/app.py`: `clean_url` and the rotating
  file-name counter shared by the audio and the video download.

Modules:

- `Tables` (tables.dfy) holds the database as one value `Db`. Each table is a map
  keyed by row id. The schema's unique keys and AUTOINCREMENT are the invariant
  `Valid`.
- `Enrollment`, `Progress` and `Quiz` give each route as a function from the old
  database to a reply and the new database. Each route is one transaction. The
  parameter `fault` stands for an exception inside its `try` block, which rolls
  the transaction back.
- `Store` (database.dfy) holds the tables as the fields of a class `Database`.
  Its methods update the tables in place. The request, the five instructor
  actions and the bulk progress route are among them. The bulk route's loop
  over the students is the method `Store.Rows`.
  Each method is proved to leave exactly the state that the route's function
  states.
- `Access` has the role predicates, the decorators and the CSRF check.
- `Rules` has the smaller validators.
- `PdfGenerator` has the font choice and the section handling of the PDF builders.
- `VideoDownload` has `clean_url` and the class `Downloader`, which holds the
  counter `i` and the two folders.
- `Text` (ASCII strip, case, split/join, `replace`, `str(n)`, `int(s)`), `Sets`, `Ratios` and
  `Wrappers` are shared helpers.

Two behaviours of the code are worth knowing before reading the contracts:

- Approving a pending row (app.py:1898-1945) or unblocking a blocked one
  (app.py:2101-2150) never looks at `max_students`; only the student's
  request compares the approved count with the capacity (app.py:5722-5731).
  `Enrollment.ApproveIgnoresCapacity` exhibits an approval that takes the
  approved count past the capacity.
- Setting an override writes the value into `progress_percentage` as well
  as into `manual_progress_override` (app.py:2238, app.py:2335), so the
  stored percentage no longer holds the automatic value.
  `Progress.ClearLeavesStaleDisplay` shows one consequence.

## Model

| member | source | states |
|---|---|---|
| Access.ApprovalStatesPartition | app.py:242-254 | an account is instructor-approved exactly when it is neither pending nor rejected, and never both pending and rejected |
| Access.InstructorRequired | app.py:289-311 | the decorator admits only logged-in users who are not students: every admin, and an instructor exactly when the account is approved |
| Access.ValidateCsrfToken | app.py:78-82 | the token passes exactly when it is non-empty and equal to the session's token |
| Enrollment.FindCourse | app.py:5690-5700 | the course found for a code is active, has that upper-cased code and an instructor row; none is found exactly when no course qualifies |
| Enrollment.Request | app.py:5674-5760 | a request succeeds only for a student, an active course with that code, a key the stored non-empty hash accepts, no row for the pair in any status, and an approved count below the capacity; it then inserts one pending row under the next id and notifies the instructor, and every failure leaves all tables unchanged |
| Enrollment.Admit | app.py:5703-5750 | after the course is found: success exactly when the key is accepted, no row for the pair exists, the approved count is below capacity and no exception occurs; success inserts the pending row and the instructor's notification, and nothing else changes |
| Enrollment.InsertKeepsValid | app.py:388-402 | inserting a row for a fresh pair of an existing course keeps the unique key and the AUTOINCREMENT invariant |
| Enrollment.Act | app.py:1896-2148 | an instructor action succeeds exactly when the caller passes the decorator, the row exists in the action's source status, and the caller owns its course; it then updates or deletes that row and appends one notification to its student, and changes nothing else |
| Enrollment.ActFollowsTable | app.py:1904-2126 | every successful action moves the row along the transition table (pending to approved or rejected, approved to blocked, blocked to approved, approved to deleted), and an action the table forbids from the row's status always fails |
| Enrollment.ActKeepsProgressAndStamp | app.py:2007-2126 | reject, block and unblock change only the status; approve changes the status and sets `approved_at`; the progress fields are never touched |
| Enrollment.OnlyOwnerActs | app.py:1909-1915 | a caller who does not own the row's course, admins included, can never act on it, and nothing changes |
| Enrollment.BlockThenUnblock | app.py:2001-2126 | blocking and then unblocking a row brings it back to the row it was |
| Enrollment.RejectedIsFinal | app.py:1904-2126 | no action succeeds on a rejected row |
| Enrollment.ExistingRowBlocksRequest | app.py:5712-5720 | while any row for the pair exists, whatever its status, a new request for the course fails |
| Enrollment.RemoveReopensRequest | app.py:2053-2097 | after a removal no row for the pair is left, so the student may request again |
| Enrollment.ApproveIgnoresCapacity | app.py:1898-1945 | there is a database in which approving a pending row succeeds and takes the approved count above `max_students` |
| Enrollment.CreateCourse | app.py:1682-1750 | creating a course succeeds exactly when the caller passes the decorator, the upper-cased code, the title and the key are present, the capacity field reads as an integer, the key has at least 6 characters and the code is unused; a capacity `int` refuses fails the request (a 500) whenever code, title and key are present, even with a short key; success inserts one course under the next id with the parsed capacity and the hashed key, and nothing else changes |
| Enrollment.CapacityReadings | app.py:1705 | a form without the field gives capacity 50, a typed number gives that number, and an empty field gives no capacity |
| Enrollment.AddCourseKeepsValid | app.py:1720-1737 | adding a course whose code is unused keeps the unique codes and the id invariant |
| Enrollment.NormalizeCodeIdempotent | app.py:1686 | normalising a course code twice gives the same code as once |
| Enrollment.CreateThenRequest | app.py:1682-1750 | a student who presents the key a course was created with gets a pending row on the first request |
| Enrollment.DecideInstructor | app.py:1180-1262 | an admin's decision succeeds exactly when an admin decides on an existing instructor account that is still pending; the new database is the old one with that account's approval status, approver and approval time set and the decision's notification appended, and nothing else |
| Enrollment.DecisionNotice | app.py:1209-1257 | an approval sends the instructor a success titled "Instructor Account Approved", a rejection an error titled "Instructor Application Rejected", neither with a related id |
| Enrollment.DecisionGovernsAccess | app.py:1180-1262 | after the decision, the instructor passes `instructor_required` exactly when approved (and the account is active) |
| Progress.SubmittedIds | app.py:180-189 | the submitted quizzes are exactly the counted quizzes with a submission by the student |
| Progress.AutoProgress | app.py:169-192 | the automatic percentage lies in [0, 100]; it is 0 exactly when nothing counted was submitted, and 100 exactly when every counted quiz was submitted |
| Progress.SubmissionNeverLowersProgress | app.py:180-192 | adding a submission never lowers the automatic percentage |
| Progress.Display | app.py:1013 | the displayed value is the override when one is set, and the stored percentage otherwise |
| Progress.UpdatePair | app.py:196-200 | the UPDATE keyed by the pair writes every row of the pair, whatever its status, and no other row |
| Progress.Recompute | app.py:159-208 | the recompute writes the automatic value into the pair's stored percentage and returns the override when one is set, the automatic value otherwise |
| Progress.UpdateStudentProgress | app.py:152-212 | without the `is_active` column the queries raise and the function returns 0 with no write; with it, the function is `Recompute` |
| Progress.RecomputeReturnsDisplayed | app.py:196-208 | the value the recompute returns is the value the row then displays |
| Progress.MissingColumnHidesCompletion | app.py:170-192 | without the column, a student with a submitted quiz gets 0 back |
| Progress.SetStudentProgress | app.py:2264-2363 | a non-owner gets 403 and nothing changes; a blank value clears the pair's override and the new state is exactly what `update_student_progress` then leaves, plus the notification, with its returned value reported as not manual; any other value must parse into [0, 100] or the route fails with no write; a valid value becomes the override and the stored percentage of the pair and is notified; a student id without a user row gets 500 after the commit. Notifications are sent after the commit (the corrected form of the finding below) |
| Progress.SetIsDisplayed | app.py:2331-2351 | after a successful set, every row of the pair displays the value set |
| Progress.ClearShowsReported | app.py:2284-2315 | with the column present, clearing the override leaves the row displaying exactly the automatic value the route reports |
| Progress.ClearLeavesStaleDisplay | app.py:2284-2315 | with the schema as created, clearing an earlier override reports 0 as not manual while the row keeps displaying the old manual value |
| Progress.BulkRows | app.py:2235-2240 | the listed students' rows of the course get the value as override and stored percentage; all other rows are unchanged |
| Progress.SetProgressBulk | app.py:2191-2262 | the bulk route succeeds exactly for an owner with a value that parses into [0, 100]; a blank value is refused with 400 and never clears; success writes the value into every approved student's rows of the course, one notification per student, and reports the number of students; every failure leaves the tables unchanged. Notifications are sent after the commit (the corrected form of the finding below) |
| Progress.BulkAgreesWithSingle | app.py:2235-2240 | each approved student's row ends as the single-student route with the same value would leave it, and displays the value |
| Progress.BulkSparesOthers | app.py:2226-2240 | rows of other courses, and rows of the course that are not approved, are left as they were |
| Progress.Send | app.py:129-150 | `send_notification` stores the notification exactly when the route's own connection holds no uncommitted write, and otherwise leaves the notifications as they were |
| Progress.SendAll | app.py:2235-2249 | sending notices one after another stores all of them, in order, when no write of the route is open, and none of them otherwise |
| Progress.SetStudentProgressAsWritten | app.py:2331-2351 | as written, a committed set leaves the notifications as they were, because the send runs before the route's commit |
| Progress.SetNoticeLost | app.py:2331-2351 | as written, setting a value stores no notification while the corrected route stores the student's one; rows, code, progress and flag are the same |
| Progress.ClearNoticeKept | app.py:2284-2315 | the clear path commits before it sends, so as written it already behaves as corrected |
| Progress.SetProgressBulkAsWritten | app.py:2226-2251 | as written, the bulk route never changes the notifications |
| Progress.BulkNoticesLost | app.py:2226-2251 | as written, the bulk route stores none of the one-per-student notifications the corrected route stores; rows, code and count are the same |
| Progress.BulkIdempotent | app.py:2191-2262 | repeating the bulk route with the same value leaves the same enrollments and reports the same count |
| Store.Database.Request | app.py:5674-5760 | the method updates the tables in place to exactly the state `Enrollment.Request` gives, with the same outcome |
| Store.Database.Admit | app.py:5703-5750 | the key, duplicate and capacity checks and the INSERT leave exactly the state `Enrollment.Admit` gives |
| Store.Database.Act | app.py:1896-2148 | the instructor action updates or deletes the row in place, leaving exactly the state `Enrollment.Act` gives |
| Store.Database.SetProgressBulk | app.py:2191-2262 | the loop over the approved students leaves the state `Progress.SetProgressBulk` gives, up to the order of the new notifications: the old notifications are kept and one follows for each approved student |
| Store.Database.WriteAll | app.py:2235-2249 | the listed students' rows get the value in place and one notification per student is appended after the old ones; nothing else changes |
| Store.Rows | app.py:2235-2249 | the loop over the selected students, one UPDATE and one notification per pass, ends with exactly the rows `Progress.BulkRows` defines and one notification for each student |
| Enrollment.OnlyEnrollable | app.py:5690-5700 | since course codes are unique, a course the query can return is the one it finds |
| Enrollment.RequestFound | app.py:5674-5703 | for a logged-in student with both fields filled and the course found, the request is decided by the key, duplicate and capacity checks alone |
| Enrollment.EmptyCourseAdmits | app.py:5703-5750 | a course with no rows, a positive capacity and a passing key admits the first request |
| Progress.BulkRowIsSet | app.py:2235-2240 | a successful bulk route writes the value into each approved student's row as override and stored percentage |
| Progress.SingleRowIsSet | app.py:2331-2340 | for an owner and an acceptable value, the single-student route writes the value into each row of the pair as override and stored percentage |
| Ratios.Percent | app.py:192 | a count out of a positive total, times 100, lies in [0, 100], is 0 exactly when the count is, and 100 exactly when it is the total |
| Quiz.Mark | app.py:5512-5522 | a non-empty choice is correct exactly when it equals the correct answer, and earns the question's points then and 0 otherwise |
| Quiz.Step | app.py:5508-5524 | every question adds its points to the possible total; only an answered question adds an answer row and its earned points |
| Quiz.GradeQuiz | app.py:5504-5524 | the accumulating loop computes exactly the tally `Grade` defines for the questions in order |
| Quiz.GradeSums | app.py:5504-5524 | the possible total is the sum of all questions' points, and the score is the sum of the earned points of the stored answers |
| Quiz.AnswersAreMarked | app.py:5512-5522 | every stored answer has a non-empty choice and is marked as `Mark` says |
| Quiz.ScoreBounds | app.py:5504-5524 | with non-negative points, 0 <= score <= possible |
| Quiz.AllCorrectFullMarks | app.py:5512-5524 | answering every question correctly earns all the possible points and stores one answer per question |
| Quiz.BlankFormScoresZero | app.py:5510-5512 | an empty form scores 0 and stores no answer |
| Quiz.Percentage | app.py:5577 | the percentage is 0 when nothing is possible, lies in [0, 100] for a score within bounds, and is 100 for full marks |
| Quiz.SubmitQuiz | app.py:5463-5587 | a submission is accepted only from a student with an approved enrollment in the quiz's course; it stores the grade and the answers of this submission in place of any earlier ones, then recomputes the student's progress |
| Quiz.SubmitKeepsAccess | app.py:5529-5575 | a submission changes no user, course or enrollment status, so a second submission is still accepted |
| Quiz.ResubmissionReplaces | app.py:5529-5548 | after two submissions only the second grade and the second answers are stored |
| Quiz.SubmitKeepsOverride | app.py:5575 | a submission leaves an instructor's override, and so the displayed value, unchanged |
| Quiz.SubmitAdvancesProgress | app.py:5575 | with the column present, after a submission the student's rows of the course store the automatic percentage, with this quiz counted as submitted |
| Rules.CheckGrade | app.py:4380-4393 | a blank grade is ungraded; a grade that does not parse is refused; a parsed grade below 0 or above the assignment's `max_points` is refused; any other value is accepted as parsed |
| Rules.BucketsPartition | app.py:4125-4131 | every grade falls into exactly one of the five buckets |
| Rules.DistributionCountsAll | app.py:4125-4131 | the five bucket counts add up to the number of grades |
| Rules.GradedWithinSubmitted | app.py:4339-4342 | no more rows are graded than submitted, since a grade only exists on a submission |
| Rules.SubmissionStats | app.py:4339-4351 | graded, pending and not-submitted are non-negative and add up to the total; the rate lies in [0, 100] and is 100 when everyone submitted |
| Rules.Extension | app.py:6354 | the extension is lower-cased and holds no dot |
| Rules.AfterLastDot | app.py:6354 | for `stem.ext` with no dot in `ext`, the extension is exactly `ext` |
| Rules.CheckUpload | app.py:6343-6387 | an upload is accepted exactly when a file is present, it has a name, its extension is allowed, it is at most 100 MB, and it fits in the 5 GB per-user quota; it is an image exactly when the extension is jpg, jpeg, png or gif |
| Rules.ImagesAreAllowed | app.py:110-117 | every image type is an allowed type |
| Rules.QuotaHolds | app.py:6376-6377 | a user who starts within the quota stays within it, whatever uploads are accepted |
| Rules.DirectRoomSymmetric | app.py:6297 | the room name is the same whichever of the two users joins |
| Rules.DirectRoomInjective | app.py:6297 | two pairs of users share a room name only when they are the same pair |
| Rules.RouteNotification | app.py:6076-6119 | without a truthy related id the click goes to the dashboard; otherwise forum words go to the forums, then chat words to the discussion, and anything else to the course page |
| Rules.ForumBeatsChat | app.py:6080-6091 | a message naming both a forum and a message goes to the forums |
| PdfGenerator.FontFor | utils/pdf_generator.py:39-52 | Helvetica whenever the fonts are unavailable; otherwise NotoSansArabic exactly when some character lies in U+0600–U+06FF or U+0750–U+077F, and NotoSans in every other case |
| PdfGenerator.FontNames | utils/pdf_generator.py:39-52 | the font is one of the three names, and the empty text gets NotoSans when the fonts are available |
| PdfGenerator.ArabicFontPersists | utils/pdf_generator.py:47-49 | text that selects the Arabic font still selects it after more text is appended |
| PdfGenerator.Sections | utils/pdf_generator.py:357-362 | every section is non-empty and starts and ends with a non-space; every section is some piece of the split on blank lines, stripped; every piece that is not blank gives a section |
| PdfGenerator.SectionsSplit | utils/pdf_generator.py:357-362 | the text before the first blank line gives the first section, unless it is blank, and the sections of the rest follow in order |
| PdfGenerator.FirstBlankLine | utils/pdf_generator.py:357 | the split finds the blank line right after a first part that holds none and does not end in a newline |
| PdfGenerator.NonEmptyAppend | utils/pdf_generator.py:359-362 | skipping empty pieces of a concatenation skips them in each part, so order is kept |
| PdfGenerator.NonEmptyKeepsAll | utils/pdf_generator.py:359-362 | pieces none of which is empty are all kept, in their order |
| PdfGenerator.NonEmpty | utils/pdf_generator.py:359-362 | the kept sections are exactly the non-empty pieces |
| PdfGenerator.TranscriptBlock | utils/pdf_generator.py:364-382 | a section is a heading exactly when its first line passes the heading test; the heading is the first line with the other lines as body; otherwise the whole section, newlines turned into `<br/>`, is a paragraph |
| PdfGenerator.BodyTextJoins | utils/pdf_generator.py:376-379 | the body under a heading is the section's other lines joined with `<br/>`, and there is none for a one-line section |
| PdfGenerator.TranscriptHeadingExamples | utils/pdf_generator.py:368-370 | a numbered line and an upper-case line are headings; a sentence in mixed case is not |
| PdfGenerator.NotesLevel | utils/pdf_generator.py:611-637 | a level is found only for a line that starts with that many `#` and then a space, and none is found for a line starting with `# ` or `## ` |
| PdfGenerator.NotesPrefixesExclusive | utils/pdf_generator.py:611-637 | at most one of the three heading prefixes matches a line |
| PdfGenerator.NotesHeadingExamples | utils/pdf_generator.py:611-637 | the three markers strip exactly 2, 3 and 4 characters, and a `#` without a space makes no heading |
| PdfGenerator.NoteBlock | utils/pdf_generator.py:607-647 | a markdown heading keeps the text after its marker and the rest as body; any other section becomes a paragraph with no `*` left in it |
| PdfGenerator.NotesWithoutPairs | utils/pdf_generator.py:641-647 | a paragraph section without a `**` pair becomes the section with each asterisk turned into the bullet and each newline into `<br/>` |
| PdfGenerator.NotesPlain | utils/pdf_generator.py:641-647 | a paragraph section without an asterisk only has its newlines turned into `<br/>` |
| PdfGenerator.BulletItem | utils/pdf_generator.py:641-647 | a line that opens with a lone asterisk starts with the bullet instead |
| PdfGenerator.BoldLeavesUnpaired | utils/pdf_generator.py:643 | the bold rewrite leaves text in which no two asterisks stand together unchanged |
| PdfGenerator.BoldWraps | utils/pdf_generator.py:643 | `**x**` becomes `<b>x</b>` for a non-empty x on one line with no asterisk |
| Text.ParseIntNatToString | app.py:1705 | `int` reads back the decimal form of any natural number |
| Text.ParseIntNegative | app.py:1705 | `int` reads a minus sign and digits as the negative number |
| Text.ParseIntPlus | app.py:1705 | `int` accepts a leading plus sign |
| Text.ParseIntPadded | app.py:1705 | `int` ignores whitespace around the number |
| Text.ParseIntRejects | app.py:1705 | an unsigned literal with a character that is not a digit, or an underscore not between two digits, makes `int` raise |
| Text.ParseIntRejectsExamples | app.py:1705 | `4.5` and `1__0` make `int` raise |
| Text.ReplaceJoin | utils/pdf_generator.py:377-378 | joining lines with a newline and then replacing each newline by `<br/>` is joining them with `<br/>` |
| VideoDownload.CleanUrl | templates/student/video_download/app.py:19-21 | the cleaned link holds neither `&` nor `?` and is a prefix of the link |
| VideoDownload.BeforeIsFirstPiece | templates/student/video_download/app.py:21 | the text before the first separator is the first piece of the split on it |
| VideoDownload.CleanUrlKeepsPlainLink | templates/student/video_download/app.py:21 | a link with neither character comes back unchanged |
| VideoDownload.CleanUrlIdempotent | templates/student/video_download/app.py:21 | cleaning twice is cleaning once |
| VideoDownload.CleanUrlCutsQuery | templates/student/video_download/app.py:19-21 | a link whose part before the `?` holds neither character cleans to exactly that part |
| VideoDownload.WatchLinkLosesId | templates/student/video_download/app.py:21 | every `watch?v=` link cleans to the same string, so the video id is lost |
| VideoDownload.Downloader.constructor | templates/student/video_download/app.py:10-16 | the counter starts at 0, and the folders keep what they held |
| VideoDownload.Downloader.DownloadAudio | templates/student/video_download/app.py:24-52 | the audio folder is emptied when it holds more than 5 entries; the file is named after the old counter; the counter becomes (i+1) mod 5, so it stays in 0..4; a folder holding only the app's files is never emptied |
| VideoDownload.Downloader.DownloadVideo | templates/student/video_download/app.py:55-76 | the video folder is emptied when it holds more than 2 entries; the file is named after the old counter; the counter becomes (i+1) mod 2, so it is 0 or 1 afterwards |
| VideoDownload.OwnFolderBounded | templates/student/video_download/app.py:29-31 | a folder holding only names the counter produces has at most 5 entries |
| VideoDownload.SharedCounter | templates/student/video_download/app.py:36-71 | three audio downloads followed by a video download save the video under the counter value 3, because the counter is shared |
| VideoDownload.FileNameThree | templates/student/video_download/app.py:36 | the counter value 3 names the file `3.mp4` |

## Left out

- The Flask, Jinja and Flask-Login plumbing (forms, `flash`, redirects,
  templates, JSON bodies) is not modelled. A route's inputs are parameters, and
  its answer is an outcome datatype.
- `db_lock`, threads and the SocketIO emits are not modelled. Each route is one
  atomic step.
- Password and key hashing (`generate_password_hash`, `check_password_hash`)
  become function parameters.
- Python's `float()` becomes a parse result carried by the form value. NaN,
  which passes the range checks, is not modelled, and neither is `{:.0f}`
  formatting.
- Timestamps (`CURRENT_TIMESTAMP`, `datetime.now()`) are modelled only as set or
  unset.
- Text handling is ASCII-only. Python's `strip`, `upper`, `isupper`, `isdigit`,
  `lower` and `int` also act on other Unicode characters (non-ASCII spaces and
  digits).
- Only a notification's recipient, title, type and related id are kept. Message
  texts, `submission_text` and `ai_feedback` are not.
- `send_notification` writes through a second connection that commits on its
  own. `Progress.Send` models only whether its INSERT can get in: it cannot
  while the route's own connection holds an uncommitted write, so the set path
  and each pass of the bulk loop lose their notification (see "## Findings").
  The 30-second wait for the lock, once per student in the bulk route, is not
  modelled. A notification sent after the route committed, as on the clear path,
  is stored in the route's own step; a later rollback of that route cannot undo
  it, and the model does not show that.
- Store.Database: `student_enroll`, the instructor actions and the bulk route
  update the tables in place. The single-student progress route, quiz
  submission, course creation and the admin decision are modelled only as
  functions on the database value (`Progress.SetStudentProgress`,
  `Quiz.SubmitQuiz`, `Enrollment.CreateCourse`, `Enrollment.DecideInstructor`).
  Their loop-free transactions change state in the same way. Quiz scoring's
  loop is the method `Quiz.GradeQuiz`.
- Store.Database.SetProgressBulk fixes the new notifications only up to their
  order. SQLite leaves the order of the SELECT open.
- PdfGenerator: reportlab styling, the watermark canvas, the heading decoration
  characters and the rest of each builder are not modelled.
- PdfGenerator.Bold has no contract of its own. Its behaviour is stated by
  `BoldLeavesUnpaired`, by `BoldWraps` and by `NoteBlock` (no `*` survives).
- PdfGenerator.Sections states which pieces become sections and, through
  `SectionsSplit`, their order for a text cut at its first blank line; the
  order in general is stated only by `NonEmptyAppend`.
- VideoDownload: the YouTube fetch, ffmpeg, `send_file` and `history.txt` are not
  modelled. The model assumes ffmpeg writes the `.mp4` it is asked for.
- `clean_youtube_url` (app.py:3491-3512) is a thin wrapper over `urllib.parse`
  and is not part of this model. Neither is gemini_ai.py.

## Findings

| source | as written | input that shows it | evidently intended | confidence | as-written member | corrected member |
|---|---|---|---|---|---|---|
| app.py:169-192 | the quiz-counting queries of `update_student_progress` filter on `assignments.is_active`, but the schema `init_db` creates (app.py:413-445) has no such column, so both queries raise and the function returns 0 without writing | a course with one active quiz (assignment 5 of course 7) and a submission of it by student 2: the recompute returns 0 instead of 100, and clearing an earlier override of 40 reports 0 while the row still displays 40 | count the course's quizzes and return the stored override or the automatic percentage, writing the latter | high; not executed | Progress.UpdateStudentProgress (with Progress.MissingColumnHidesCompletion, Progress.ClearLeavesStaleDisplay) | Progress.Recompute (with Progress.RecomputeReturnsDisplayed, Progress.ClearShowsReported, Quiz.SubmitAdvancesProgress) |
| app.py:2331-2351 | the set path calls `send_notification` after its UPDATE and before its commit; the helper's own connection cannot write while the route's write is open, waits 30 s, raises "database is locked" and swallows it, so the student is never notified | an owner sets 80 for a student of the course: the rows get 80 and the route answers 200, but the notifications table is unchanged | send the notification after the commit, as the clear path (app.py:2295-2308) does, so it is stored | medium; not executed | Progress.SetStudentProgressAsWritten (with Progress.SetNoticeLost) | Progress.SetStudentProgress (with Progress.ClearNoticeKept) |
| app.py:2226-2251 | the bulk loop calls `send_notification` after each student's UPDATE, all before the one commit after the loop, so every send fails the same way (after a 30 s wait each) | an owner sets 50 for a course with two approved students: both rows get 50, the reply counts 2, and no notification is stored | send the notifications after the commit, one per approved student | medium; not executed | Progress.SetProgressBulkAsWritten (with Progress.BulkNoticesLost) | Progress.SetProgressBulk (with Store.Database.SetProgressBulk, Store.Rows) |
