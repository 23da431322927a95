/** Who may call what: the role predicates of app.py's `User` class, the
    `admin_required` and `instructor_required` decorators, and the CSRF
    token check. */
module Access {
  import opened Wrappers
  import opened Tables

  /** `User.is_instructor_approved`: only instructors need an approval. */
  predicate IsInstructorApproved(u: User) {
    u.role != Instructor || u.approval == AccountApproved
  }

  /** `User.is_instructor_pending`. */
  predicate IsInstructorPending(u: User) {
    u.role == Instructor && u.approval == AccountPending
  }

  /** `User.is_instructor_rejected`. */
  predicate IsInstructorRejected(u: User) {
    u.role == Instructor && u.approval == AccountRejected
  }

  /** An account is approved, pending or rejected, and exactly one of them. */
  lemma ApprovalStatesPartition(u: User)
    ensures IsInstructorApproved(u) <==> !(IsInstructorPending(u) || IsInstructorRejected(u))
    ensures !(IsInstructorPending(u) && IsInstructorRejected(u))
  {
  }

  /** `instructor_required`: a logged-in admin, or a logged-in instructor
      whose account is approved. */
  function InstructorRequired(db: Db, caller: UserId): (ok: bool)
    ensures ok ==> Authenticated(db, caller) && db.users[caller].role != Student
    ensures Authenticated(db, caller) && db.users[caller].role == Admin ==> ok
    ensures Authenticated(db, caller) && db.users[caller].role == Instructor ==>
              (ok <==> db.users[caller].approval == AccountApproved)
  {
    if !Authenticated(db, caller) then false
    else if db.users[caller].role == Admin then true
    else if db.users[caller].role != Instructor then false
    else IsInstructorApproved(db.users[caller])
  }

  /** `admin_required`. */
  predicate AdminRequired(db: Db, caller: UserId) {
    Authenticated(db, caller) && db.users[caller].role == Admin
  }

  /** `validate_csrf_token`: the submitted token must be non-empty and equal
      to the one stored in the session. */
  function ValidateCsrfToken(token: Option<string>, session: Option<string>): (ok: bool)
    ensures ok ==> token.Some? && token.value != "" && session == token
    ensures token.Some? && token.value != "" && session == token ==> ok
  {
    if token.None? || token.value == "" || session != token then false else true
  }
}
