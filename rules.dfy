/** The smaller guarded rules of app.py: the instructor's grade check,
    the chat-upload limits, the grade distribution and submission
    statistics of the analytics pages, the direct-chat room name, and the
    keyword routing of a clicked notification. */
module Rules {
  import opened Wrappers
  import Text
  import Ratios

  // ---------------------------------------------------------------------
  // Grading a submission (`instructor_grade_submission`)
  // ---------------------------------------------------------------------

  /** What the grade field amounts to: no grade (blank), a grade, or one of
      the two 400 answers. */
  datatype GradeCheck = Ungraded | Graded(value: real) | NotANumber | OutOfRange

  /** `grade = request.form.get('grade', '').strip()`, then
      `float(grade) if grade else None` and the range check against the
      assignment's `max_points`; `parse` stands for Python's `float()`
      (None when it raises `ValueError`). */
  function CheckGrade(raw: string, parse: string -> Option<real>, maxPoints: int): (r: GradeCheck)
    ensures r == Ungraded <==> Text.Strip(raw) == ""
    ensures r.Graded? ==> parse(Text.Strip(raw)) == Some(r.value) && 0.0 <= r.value <= maxPoints as real
    ensures r == NotANumber <==> Text.Strip(raw) != "" && parse(Text.Strip(raw)).None?
    ensures r == OutOfRange <==>
      Text.Strip(raw) != "" && parse(Text.Strip(raw)).Some?
      && (parse(Text.Strip(raw)).value < 0.0 || parse(Text.Strip(raw)).value > maxPoints as real)
  {
    var grade := Text.Strip(raw);
    if grade == "" then Ungraded
    else match parse(grade)
      case None => NotANumber
      case Some(v) => if v < 0.0 || v > maxPoints as real then OutOfRange else Graded(v)
  }

  // ---------------------------------------------------------------------
  // Grade distribution (`instructor_assignment_analytics`)
  // ---------------------------------------------------------------------

  /** `len([g for g in grades if p(g)])`. */
  function Count(grades: seq<real>, p: real -> bool): (n: nat)
    ensures n <= |grades|
  {
    if grades == [] then 0
    else Count(grades[..|grades| - 1], p) + (if p(grades[|grades| - 1]) then 1 else 0)
  }

  /** The five buckets of `grade_distribution`. */
  datatype Distribution = Distribution(a: nat, b: nat, c: nat, d: nat, f: nat)

  function InA(g: real): bool { g >= 90.0 }
  function InB(g: real): bool { 80.0 <= g < 90.0 }
  function InC(g: real): bool { 70.0 <= g < 80.0 }
  function InD(g: real): bool { 60.0 <= g < 70.0 }
  function InF(g: real): bool { g < 60.0 }

  function GradeDistribution(grades: seq<real>): Distribution {
    Distribution(Count(grades, InA), Count(grades, InB), Count(grades, InC), Count(grades, InD), Count(grades, InF))
  }

  /** Every grade, out of range or not, falls in exactly one bucket. */
  lemma BucketsPartition(g: real)
    ensures (if InA(g) then 1 else 0) + (if InB(g) then 1 else 0) + (if InC(g) then 1 else 0)
          + (if InD(g) then 1 else 0) + (if InF(g) then 1 else 0) == 1
  {
  }

  /** The buckets together count every grade once. */
  lemma {:induction false} DistributionCountsAll(grades: seq<real>)
    ensures var d := GradeDistribution(grades); d.a + d.b + d.c + d.d + d.f == |grades|
  {
    if grades != [] {
      DistributionCountsAll(grades[..|grades| - 1]);
      BucketsPartition(grades[|grades| - 1]);
    }
  }

  // ---------------------------------------------------------------------
  // Submission statistics (`instructor_view_submissions`)
  // ---------------------------------------------------------------------

  /** One row of the students-with-submissions query: the submission's id
      and grade, both NULL when the LEFT JOIN found no submission. */
  datatype StudentRow = StudentRow(submission: Option<int>, grade: Option<real>)

  /** What the LEFT JOIN guarantees: a grade comes with a submission. */
  predicate FromJoin(r: StudentRow) {
    r.grade.Some? ==> r.submission.Some?
  }

  function Submitted(rows: seq<StudentRow>): (n: nat)
    ensures n <= |rows|
  {
    if rows == [] then 0 else Submitted(rows[..|rows| - 1]) + (if rows[|rows| - 1].submission.Some? then 1 else 0)
  }

  function GradedCount(rows: seq<StudentRow>): (n: nat)
    ensures n <= |rows|
  {
    if rows == [] then 0 else GradedCount(rows[..|rows| - 1]) + (if rows[|rows| - 1].grade.Some? then 1 else 0)
  }

  /** No more rows are graded than submitted. */
  lemma {:induction false} GradedWithinSubmitted(rows: seq<StudentRow>)
    requires forall r <- rows :: FromJoin(r)
    ensures GradedCount(rows) <= Submitted(rows)
  {
    if rows != [] {
      assert forall r <- rows[..|rows| - 1] :: r in rows;
      GradedWithinSubmitted(rows[..|rows| - 1]);
      assert rows[|rows| - 1] in rows;
    }
  }

  datatype Stats = Stats(total: int, submitted: int, graded: int, pending: int, notSubmitted: int, rate: real)

  /** The `stats` dictionary: pending = submitted − graded, not submitted =
      total − submitted, rate = submitted / max(1, total) · 100. For rows
      the query can return, none of the counts is negative, they add up to
      the number of students, and the rate is a percentage. */
  function SubmissionStats(rows: seq<StudentRow>): (s: Stats)
    requires forall r <- rows :: FromJoin(r)
    ensures 0 <= s.graded && 0 <= s.pending && 0 <= s.notSubmitted
    ensures s.graded + s.pending + s.notSubmitted == s.total == |rows|
    ensures 0.0 <= s.rate <= 100.0
    ensures s.notSubmitted == 0 && |rows| > 0 ==> s.rate == 100.0
  {
    var total := |rows|;
    var submitted := Submitted(rows);
    var graded := GradedCount(rows);
    GradedWithinSubmitted(rows);
    var denominator := if total > 1 then total else 1;
    Ratios.Percent(submitted, denominator);
    Stats(total, submitted, graded, submitted - graded, total - submitted,
          (submitted as real / denominator as real) * 100.0)
  }

  // ---------------------------------------------------------------------
  // Chat upload limits (`upload_chat_file`)
  // ---------------------------------------------------------------------

  /** `MAX_CHAT_FILE_SIZE`: 100 MB per file. */
  const MaxChatFileSize: int := 100 * 1024 * 1024

  /** `MAX_TOTAL_STORAGE_PER_USER`: 5 GB per user. */
  const MaxTotalStoragePerUser: int := 5 * 1024 * 1024 * 1024

  /** `ALLOWED_FILE_TYPES`. */
  const AllowedFileTypes: set<string> := {
    "pdf", "doc", "docx", "ppt", "pptx", "xls", "xlsx", "txt",
    "jpg", "jpeg", "png", "gif", "bmp", "webp", "svg",
    "zip", "rar", "7z", "tar", "gz",
    "mp4", "mov", "avi", "mkv", "webm", "flv",
    "mp3", "wav", "ogg", "m4a",
    "csv", "json", "xml", "html", "css", "js", "py", "java", "cpp", "c", "h"
  }

  /** The extensions shown inline as images. */
  const ImageTypes: set<string> := {"jpg", "jpeg", "png", "gif"}

  /** `s.rsplit(c, 1)[-1]`: the text after the last `c`, or all of `s`. */
  function AfterLast(s: string, c: char): (r: string)
    ensures |r| <= |s| && r == s[|s| - |r|..]
    ensures forall k :: 0 <= k < |r| ==> r[k] != c
    ensures r == s || s[|s| - |r| - 1] == c
  {
    if s == [] then []
    else if s[|s| - 1] == c then []
    else AfterLast(s[..|s| - 1], c) + [s[|s| - 1]]
  }

  /** `file.filename.rsplit('.', 1)[-1].lower()`. */
  function Extension(filename: string): (ext: string)
    ensures forall k :: 0 <= k < |ext| ==> ext[k] != '.' && !Text.IsUpperChar(ext[k])
  {
    Text.Lower(AfterLast(filename, '.'))
  }

  /** Whatever comes before the last dot, the extension is what follows it. */
  lemma {:induction false} AfterLastDot(stem: string, ext: string, c: char)
    requires forall k :: 0 <= k < |ext| ==> ext[k] != c
    ensures AfterLast(stem + [c] + ext, c) == ext
    decreases |ext|
  {
    var s := stem + [c] + ext;
    if ext != [] {
      var e := ext[..|ext| - 1];
      assert s[..|s| - 1] == stem + [c] + e;
      AfterLastDot(stem, e, c);
      assert ext == e + [ext[|ext| - 1]];
    } else {
      assert s[|s| - 1] == c;
    }
  }

  /** The upload route's answer. */
  datatype Upload = NoFile | NoSelection | TypeNotAllowed | TooLarge | StorageFull | Accepted(isImage: bool)

  /** `upload_chat_file`'s checks, in order: a file part, a file name, an
      allowed extension, the per-file size, then the user's total
      (`SUM(file_size)`, 0 when there is none) plus this file. */
  function CheckUpload(present: bool, filename: string, size: nat, used: nat): (r: Upload)
    ensures r.Accepted? <==>
      present && filename != "" && Extension(filename) in AllowedFileTypes
      && size <= MaxChatFileSize && used + size <= MaxTotalStoragePerUser
    ensures r.Accepted? ==> (r.isImage <==> Extension(filename) in ImageTypes)
    ensures r == TooLarge ==> size > MaxChatFileSize
    ensures r == StorageFull ==> size <= MaxChatFileSize && used + size > MaxTotalStoragePerUser
  {
    if !present then NoFile
    else if filename == "" then NoSelection
    else
      var ext := Extension(filename);
      if ext !in AllowedFileTypes then TypeNotAllowed
      else if size > MaxChatFileSize then TooLarge
      else if used + size > MaxTotalStoragePerUser then StorageFull
      else Accepted(ext in ImageTypes)
  }

  /** Every image type is an allowed type, so an image upload is never
      refused for its type. */
  lemma ImagesAreAllowed()
    ensures ImageTypes <= AllowedFileTypes
  {
  }

  /** Accepting uploads one after another never takes a user past the
      storage quota. */
  lemma {:induction false} QuotaHolds(sizes: seq<nat>, used: nat)
    requires used <= MaxTotalStoragePerUser
    ensures Admit(sizes, used) <= MaxTotalStoragePerUser
  {
    if sizes != [] {
      var next := if CheckUpload(true, "a.pdf", sizes[0], used).Accepted? then used + sizes[0] else used;
      QuotaHolds(sizes[1..], next);
    }
  }

  /** The storage in use after offering files of the given sizes in turn,
      each under an allowed name, keeping those the route accepts. */
  function Admit(sizes: seq<nat>, used: nat): nat {
    if sizes == [] then used
    else
      var next := if CheckUpload(true, "a.pdf", sizes[0], used).Accepted? then used + sizes[0] else used;
      Admit(sizes[1..], next)
  }

  // ---------------------------------------------------------------------
  // Direct-chat room (`on_join_direct_chat`)
  // ---------------------------------------------------------------------

  /** `f'direct_{min(a, b)}_{max(a, b)}'`. */
  function DirectRoom(a: nat, b: nat): string {
    var lo := if a <= b then a else b;
    var hi := if a <= b then b else a;
    "direct_" + Text.NatToString(lo) + "_" + Text.NatToString(hi)
  }

  /** Both users of a conversation compute the same room. */
  lemma DirectRoomSymmetric(a: nat, b: nat)
    ensures DirectRoom(a, b) == DirectRoom(b, a)
  {
  }

  /** The length of the run of digits that starts the text. */
  function LeadingDigits(s: string): nat {
    if s == [] || !Text.IsDigitChar(s[0]) then 0 else 1 + LeadingDigits(s[1..])
  }

  lemma {:induction false} DigitsThenUnderscore(p: string, q: string)
    requires forall k :: 0 <= k < |p| ==> Text.IsDigitChar(p[k])
    ensures LeadingDigits(p + "_" + q) == |p|
  {
    if p != [] {
      assert (p + "_" + q)[1..] == p[1..] + "_" + q;
      DigitsThenUnderscore(p[1..], q);
    }
  }

  /** Text made of a digit string, an underscore and the rest splits back
      uniquely. */
  lemma {:induction false} SplitAtUnderscore(p: string, q: string, p': string, q': string)
    requires forall k :: 0 <= k < |p| ==> Text.IsDigitChar(p[k])
    requires forall k :: 0 <= k < |p'| ==> Text.IsDigitChar(p'[k])
    requires p + "_" + q == p' + "_" + q'
    ensures p == p' && q == q'
  {
    var s := p + "_" + q;
    DigitsThenUnderscore(p, q);
    DigitsThenUnderscore(p', q');
    assert |p| == |p'|;
    assert s[..|p|] == p;
    assert (p' + "_" + q')[..|p'|] == p';
    assert s[|p| + 1..] == q;
    assert (p' + "_" + q')[|p'| + 1..] == q';
  }

  /** Different pairs of users never share a room. */
  lemma {:induction false} DirectRoomInjective(a: nat, b: nat, c: nat, d: nat)
    requires DirectRoom(a, b) == DirectRoom(c, d)
    ensures (a == c && b == d) || (a == d && b == c)
  {
    var lo, hi := if a <= b then a else b, if a <= b then b else a;
    var lo', hi' := if c <= d then c else d, if c <= d then d else c;
    var t := Text.NatToString(lo) + "_" + Text.NatToString(hi);
    var t' := Text.NatToString(lo') + "_" + Text.NatToString(hi');
    assert DirectRoom(a, b) == "direct_" + t;
    assert DirectRoom(c, d) == "direct_" + t';
    assert t == DirectRoom(a, b)[7..] && t' == DirectRoom(c, d)[7..];
    SplitAtUnderscore(Text.NatToString(lo), Text.NatToString(hi), Text.NatToString(lo'), Text.NatToString(hi'));
    Text.NatToStringInjective(lo, lo');
    Text.NatToStringInjective(hi, hi');
  }

  // ---------------------------------------------------------------------
  // Notification routing (`view_notification`)
  // ---------------------------------------------------------------------

  /** Where a clicked notification leads. */
  datatype Destination = CourseForums(course: int) | CourseDiscussion(course: int) | CourseView(course: int) | Dashboard

  /** `if course_id:` on `related_id`: NULL and 0 are false. */
  predicate Truthy(related: Option<int>) {
    related.Some? && related.value != 0
  }

  /** Any of the keywords in the lower-cased message. */
  predicate Mentions(message: string, words: seq<string>) {
    exists k :: 0 <= k < |words| && |words[k]| > 0 && Text.Contains(Text.Lower(message), words[k])
  }

  const ForumWords: seq<string> := ["forum", "discussion", "topic"]
  const ChatWords: seq<string> := ["message", "chat", "community"]
  const QuizWords: seq<string> := ["quiz", "assignment", "grade"]
  const CourseWords: seq<string> := ["enrollment", "course", "approved"]
  const ProgressWords: seq<string> := ["progress"]

  /** The keyword groups are tried in order, each leading to its page when
      the notification names a course and to the dashboard otherwise; the
      last three groups and the fallback all lead to the course page. So:
      no course, the dashboard; else the forums for a forum word, the
      discussion for a chat word, and the course page for anything else. */
  function RouteNotification(message: string, related: Option<int>): (d: Destination)
    ensures !Truthy(related) ==> d == Dashboard
    ensures Truthy(related) && Mentions(message, ForumWords) ==> d == CourseForums(related.value)
    ensures Truthy(related) && !Mentions(message, ForumWords) && Mentions(message, ChatWords) ==>
              d == CourseDiscussion(related.value)
    ensures Truthy(related) && !Mentions(message, ForumWords) && !Mentions(message, ChatWords) ==>
              d == CourseView(related.value)
  {
    if Mentions(message, ForumWords) then
      if Truthy(related) then CourseForums(related.value) else Dashboard
    else if Mentions(message, ChatWords) then
      if Truthy(related) then CourseDiscussion(related.value) else Dashboard
    else if Mentions(message, QuizWords) then
      if Truthy(related) then CourseView(related.value) else Dashboard
    else if Mentions(message, CourseWords) then
      if Truthy(related) then CourseView(related.value) else Dashboard
    else if Mentions(message, ProgressWords) then
      if Truthy(related) then CourseView(related.value) else Dashboard
    else if Truthy(related) then CourseView(related.value)
    else Dashboard
  }

  /** A forum word wins over a chat word in the same message: "New forum
      message" leads to the forums. */
  lemma ForumBeatsChat(related: int)
    requires related != 0
    ensures RouteNotification("New forum message", Some(related)) == CourseForums(related)
  {
    assert Text.OccursAt(Text.Lower("New forum message"), ForumWords[0], 4);
  }
}
