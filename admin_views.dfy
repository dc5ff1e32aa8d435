/** The administration views of administration/views.py that touch the academic records:
    the `admin_required` gate, the dashboard counts, result approval (one result, or every
    pending result at once), unassigning a course's lecturer, and the three delete views
    that remove a profile together with its account. */
module AdministrationViews {
  import opened Records
  import Transcripts

  /** What a view answers with; the page it renders or redirects to is not modelled. */
  datatype Response =
    | LoginRedirect   // turned away by `login_required` or `admin_required`
    | NotFound        // 404 from `get_object_or_404`
    | Rendered        // a page or form is shown; nothing was written
    | Redirected      // the write went through

  /** `login_required` followed by `admin_required`: a signed-in account whose role is 'admin'. */
  predicate AdminAllowed(req: Requester, users: map<UserId, User>)
  {
    Authenticated(req, users) && users[req.user].role == "admin"
  }

  // ---------------------------------------------------------------------------
  // Dashboard

  datatype Stats = Stats(totalLecturers: nat, totalStudents: nat, totalCourses: nat,
                         assignedCourses: nat, unassignedCourses: nat)

  /** The courses that have a lecturer. */
  function Assigned(courses: map<CourseId, Course>): set<CourseId>
  {
    set c | c in courses && courses[c].assignedLecturer.Some?
  }

  /** The courses that have none. */
  function Unassigned(courses: map<CourseId, Course>): set<CourseId>
  {
    set c | c in courses && courses[c].assignedLecturer.None?
  }

  /** The five counts; every course is counted either as assigned or as unassigned. */
  function DashboardStats(lecturers: map<LecturerId, UserId>, students: map<StudentId, UserId>,
                          courses: map<CourseId, Course>): (s: Stats)
    ensures s.assignedCourses + s.unassignedCourses == s.totalCourses
    ensures s.assignedCourses <= s.totalCourses && s.unassignedCourses <= s.totalCourses
  {
    var a, u := Assigned(courses), Unassigned(courses);
    assert a + u == courses.Keys;
    assert a * u == {};
    Stats(|lecturers|, |students|, |courses|, |a|, |u|)
  }

  /** `admin_dashboard`: the counts, shown to administrators only. */
  method AdminDashboard(db: Database, req: Requester) returns (resp: Response, stats: Option<Stats>)
    ensures resp == LoginRedirect <==> !AdminAllowed(req, db.users)
    ensures resp == Rendered <==> AdminAllowed(req, db.users)
    ensures stats.Some? <==> resp == Rendered
    ensures stats.Some? ==> stats.value == DashboardStats(db.lecturers, db.students, db.courses)
  {
    if !AdminAllowed(req, db.users) {
      return LoginRedirect, None;
    }
    return Rendered, Some(DashboardStats(db.lecturers, db.students, db.courses));
  }

  // ---------------------------------------------------------------------------
  // Approving results

  /** The characters Python's `str.isspace` accepts: the ones `str.strip` removes. */
  predicate IsSpace(c: char)
  {
    || c == ' ' || '\t' <= c <= '\r' || '\U{001C}' <= c <= '\U{001F}'
    || c == '\U{0085}' || c == '\U{00A0}' || c == '\U{1680}' || '\U{2000}' <= c <= '\U{200A}'
    || c == '\U{2028}' || c == '\U{2029}' || c == '\U{202F}' || c == '\U{205F}' || c == '\U{3000}'
  }

  /** Where the text of `s` starts, looking from index `start` on: the first character that is not
      whitespace, or the end of `s`. */
  function TextStart(s: string, start: nat): (i: nat)
    requires start <= |s|
    ensures start <= i <= |s|
    ensures forall k :: start <= k < i ==> IsSpace(s[k])
    ensures i == |s| || !IsSpace(s[i])
    decreases |s| - start
  {
    if start < |s| && IsSpace(s[start]) then TextStart(s, start + 1) else start
  }

  /** Where the text of `s[lo..hi]` ends: just after its last character that is not
      whitespace, or `lo`. */
  function TextEnd(s: string, lo: nat, hi: nat): (j: nat)
    requires lo <= hi <= |s|
    ensures lo <= j <= hi
    ensures forall k :: j <= k < hi ==> IsSpace(s[k])
    ensures j == lo || !IsSpace(s[j - 1])
    decreases hi - lo
  {
    if lo < hi && IsSpace(s[hi - 1]) then TextEnd(s, lo, hi - 1) else hi
  }

  /** `str.strip()`: the slice of `s` left once the leading and the trailing whitespace are
      cut off; everything cut off is whitespace, and what is left neither starts nor ends
      with whitespace. */
  function Strip(s: string): (t: string)
    ensures var i := TextStart(s, 0);
      && i + |t| <= |s| && t == s[i..i + |t|]
      && (forall k :: 0 <= k < i ==> IsSpace(s[k]))
      && (forall k :: i + |t| <= k < |s| ==> IsSpace(s[k]))
    ensures t == [] || (!IsSpace(t[0]) && !IsSpace(t[|t| - 1]))
  {
    var i := TextStart(s, 0);
    s[i..TextEnd(s, i, |s|)]
  }

  /** Stripping twice is stripping once. */
  lemma StripIdempotent(s: string)
    ensures Strip(Strip(s)) == Strip(s)
  {
    var t := Strip(s);
    if t != [] {
      assert TextStart(t, 0) == 0;
      assert TextEnd(t, 0, |t|) == |t|;
      assert t[0..|t|] == t;
    }
  }

  /** The posted `ResultApprovalForm`: the score in hundredths (None when it does not parse as a
      decimal with two places), the grade and the status as sent. */
  datatype ApprovalForm = ApprovalForm(score: Option<int>, grade: string, status: string)

  /** The grade the form cleans: the posted text with surrounding whitespace stripped. */
  function CleanGrade(f: ApprovalForm): string
  {
    Strip(f.grade)
  }

  /** The form's validation: a decimal of at most five digits, two after the point; a grade
      that, once stripped, has one or two characters and no NUL; a status among the declared
      choices. */
  predicate FormValid(f: ApprovalForm)
  {
    && f.score.Some? && -99999 <= f.score.value <= 99999
    && 1 <= |CleanGrade(f)| <= 2 && '\0' !in CleanGrade(f)
    && f.status in {"Pending", "Approved"}
  }

  /** A result saved from a valid form by administrator `u`. */
  function ApproveWith(r: Result, f: ApprovalForm, u: UserId): (a: Result)
    requires FormValid(f)
    ensures a.status == Approved && a.approvedBy == Some(u)
    ensures a.score == f.score.value && a.grade == CleanGrade(f)
    ensures 1 <= |a.grade| <= 2 && !IsSpace(a.grade[0]) && !IsSpace(a.grade[|a.grade| - 1])
    ensures a.registration == r.registration && a.submittedBy == r.submittedBy
  {
    Result(r.registration, f.score.value, CleanGrade(f), Approved, r.submittedBy, Some(u))
  }

  /** Padding around a letter is cut off. */
  lemma StripPaddedLetter()
    ensures Strip("A  ") == "A"
  {
    var s := "A  ";
    assert TextStart(s, 0) == 0;
    assert TextEnd(s, 0, 1) == 1;
    assert TextEnd(s, 0, 2) == 1;
    assert TextEnd(s, 0, 3) == 1;
    assert s[0..1] == "A";
  }

  /** A grade posted with padding is saved without it: "A  " passes the two-character limit and
      is stored as "A", worth 5 points on the transcript. */
  lemma PaddedGradeIsStripped(r: Result, u: UserId)
    ensures var f := ApprovalForm(Some(7000), "A  ", "Approved");
      FormValid(f) && ApproveWith(r, f, u).grade == "A" && Transcripts.GradePoint(ApproveWith(r, f, u).grade) == 5
  {
    var f := ApprovalForm(Some(7000), "A  ", "Approved");
    StripPaddedLetter();
    assert CleanGrade(f) == "A";
  }

  /** `approve_result`: on a valid POST the result takes the posted score and grade, becomes
      Approved and records the acting administrator; whatever status was posted is replaced. */
  method ApproveResult(db: Database, req: Requester, pk: ResultId, isPost: bool, form: ApprovalForm)
    returns (resp: Response)
    requires db.Valid()
    modifies db`results
    ensures db.Valid()
    ensures resp == LoginRedirect <==> !AdminAllowed(req, db.users)
    ensures resp == NotFound <==> AdminAllowed(req, db.users) && pk !in old(db.results)
    ensures resp == Rendered <==> AdminAllowed(req, db.users) && pk in old(db.results) && !(isPost && FormValid(form))
    ensures resp == Redirected <==> AdminAllowed(req, db.users) && pk in old(db.results) && isPost && FormValid(form)
    ensures db.results == if resp == Redirected
      then old(db.results)[pk := ApproveWith(old(db.results)[pk], form, req.user)]
      else old(db.results)
  {
    if !AdminAllowed(req, db.users) {
      return LoginRedirect;
    }
    if pk !in db.results {
      return NotFound;
    }
    if !isPost || !FormValid(form) {
      return Rendered;
    }
    var result := db.results[pk];
    result := result.(score := form.score.value, grade := CleanGrade(form));
    result := result.(status := Approved, approvedBy := Some(req.user));
    db.results := db.results[pk := result];
    return Redirected;
  }

  /** The results still pending. */
  function PendingIds(results: map<ResultId, Result>): set<ResultId>
  {
    set x | x in results && results[x].status == Pending
  }

  /** A pending result approved by `u`. */
  function Stamp(r: Result, u: UserId): Result
  {
    r.(status := Approved, approvedBy := Some(u))
  }

  /** The results table after every pending result is approved by `u`. */
  function ApproveAll(results: map<ResultId, Result>, u: UserId): map<ResultId, Result>
  {
    map x | x in results :: if results[x].status == Pending then Stamp(results[x], u) else results[x]
  }

  /** Bulk approval leaves no result pending, and stamps each one it changes with `u`. */
  lemma ApproveAllClearsPending(results: map<ResultId, Result>, u: UserId)
    ensures PendingIds(ApproveAll(results, u)) == {}
    ensures ApproveAll(results, u).Keys == results.Keys
    ensures forall x :: x in PendingIds(results) ==>
      ApproveAll(results, u)[x].approvedBy == Some(u) && ApproveAll(results, u)[x].status == Approved
  {
    var m := ApproveAll(results, u);
    forall x | x in m ensures m[x].status == Approved {
      assert results[x].status == Pending || results[x].status == Approved;
    }
  }

  /** Results already approved keep their approver, score and grade; pending ones change
      only in status and approver. */
  lemma ApproveAllTouchesOnlyPending(results: map<ResultId, Result>, u: UserId)
    ensures forall x :: x in results && x !in PendingIds(results) ==> ApproveAll(results, u)[x] == results[x]
    ensures forall x :: x in PendingIds(results) ==>
      ApproveAll(results, u)[x] == results[x].(status := Approved, approvedBy := Some(u))
  {
  }

  /** A second bulk approval, by anyone, changes nothing. */
  lemma ApproveAllIdempotent(results: map<ResultId, Result>, u: UserId, v: UserId)
    ensures ApproveAll(ApproveAll(results, u), v) == ApproveAll(results, u)
  {
    ApproveAllClearsPending(results, u);
    var m := ApproveAll(results, u);
    assert forall x :: x in m ==> m[x].status != Pending;
  }

  /** The results table with the results in `ids` approved by `u`: the table part way
      through the bulk approval loop. */
  function StampSet(results: map<ResultId, Result>, ids: set<ResultId>, u: UserId): map<ResultId, Result>
  {
    map x | x in results :: if x in ids then Stamp(results[x], u) else results[x]
  }

  /** Approving one more result extends the set of approved ones by that result. */
  lemma StampOneMore(results: map<ResultId, Result>, ids: set<ResultId>, u: UserId, x: ResultId)
    requires x in results
    ensures StampSet(results, ids + {x}, u) == StampSet(results, ids, u)[x := Stamp(results[x], u)]
  {
    var m, m' := StampSet(results, ids + {x}, u), StampSet(results, ids, u)[x := Stamp(results[x], u)];
    assert m.Keys == m'.Keys;
    assert forall y :: y in m ==> m[y] == m'[y];
  }

  /** Approving by an existing account keeps the results table's integrity. */
  lemma ApproveAllValid(results: map<ResultId, Result>, registrations: map<RegistrationId, Registration>,
                        lecturers: map<LecturerId, UserId>, users: map<UserId, User>, next: nat, u: UserId)
    requires ResultsValid(results, registrations, lecturers, users, next)
    requires u in users
    ensures ResultsValid(ApproveAll(results, u), registrations, lecturers, users, next)
  {
    var m := ApproveAll(results, u);
    assert forall x :: x in m ==> m[x].registration == results[x].registration;
  }

  /** Bulk approval approves exactly the results that were pending. */
  lemma StampPendingIsApproveAll(results: map<ResultId, Result>, u: UserId)
    ensures StampSet(results, PendingIds(results), u) == ApproveAll(results, u)
  {
  }

  /** `approve_all_results`: on a POST, count the pending results, then approve each one;
      the count is what the success message reports. Any other request changes nothing. */
  method ApproveAllResults(db: Database, req: Requester, isPost: bool) returns (resp: Response, count: Option<nat>)
    requires db.Valid()
    modifies db`results
    ensures db.Valid()
    ensures resp == LoginRedirect <==> !AdminAllowed(req, db.users)
    ensures resp == Redirected <==> AdminAllowed(req, db.users)
    ensures count.Some? <==> AdminAllowed(req, db.users) && isPost
    ensures count.Some? ==> count.value == |PendingIds(old(db.results))|
    ensures db.results == if count.Some? then ApproveAll(old(db.results), req.user) else old(db.results)
  {
    if !AdminAllowed(req, db.users) {
      return LoginRedirect, None;
    }
    if !isPost {
      return Redirected, None;
    }
    var pending := PendingIds(db.results);
    var n := |pending|;
    ApproveAllValid(db.results, db.registrations, db.lecturers, db.users, db.nextResultId, req.user);
    StampPendingIsApproveAll(db.results, req.user);
    StampEach(db, pending, req.user);
    return Redirected, Some(n);
  }

  /** The loop of `approve_all_results`: each listed result in turn becomes Approved with `u`
      as its approver, and is saved. */
  method StampEach(db: Database, ids: set<ResultId>, u: UserId)
    requires ids <= db.results.Keys
    modifies db`results
    ensures db.results == StampSet(old(db.results), ids, u)
  {
    ghost var before := db.results;
    var todo := ids;
    while todo != {}
      invariant todo <= ids
      invariant db.results == StampSet(before, ids - todo, u)
      decreases |todo|
    {
      var x :| x in todo;
      StampOneMore(before, ids - todo, u, x);
      db.results := db.results[x := Stamp(db.results[x], u)];
      assert ids - (todo - {x}) == (ids - todo) + {x};
      todo := todo - {x};
    }
  }

  // ---------------------------------------------------------------------------
  // Course assignment

  /** `unassign_course`: on a POST the course loses its lecturer and keeps every other field. */
  method UnassignCourse(db: Database, req: Requester, pk: CourseId, isPost: bool) returns (resp: Response)
    requires db.Valid()
    modifies db`courses
    ensures db.Valid()
    ensures resp == LoginRedirect <==> !AdminAllowed(req, db.users)
    ensures resp == NotFound <==> AdminAllowed(req, db.users) && pk !in old(db.courses)
    ensures resp == Rendered <==> AdminAllowed(req, db.users) && pk in old(db.courses) && !isPost
    ensures resp == Redirected <==> AdminAllowed(req, db.users) && pk in old(db.courses) && isPost
    ensures db.courses == if resp == Redirected
      then old(db.courses)[pk := old(db.courses)[pk].(assignedLecturer := None)]
      else old(db.courses)
  {
    if !AdminAllowed(req, db.users) {
      return LoginRedirect;
    }
    if pk !in db.courses {
      return NotFound;
    }
    if !isPost {
      return Rendered;
    }
    var course := db.courses[pk];
    course := course.(assignedLecturer := None);
    db.courses := db.courses[pk := course];
    return Redirected;
  }

  // ---------------------------------------------------------------------------
  // Deleting profiles

  /** The state after `user.delete()` of account `u`, with every ON DELETE rule applied. */
  twostate predicate UserDeleted(db: Database, u: UserId)
    reads db
  {
    && db.users == old(db.users) - {u}
    && db.admins == CascadeProfiles(old(db.admins), db.users)
    && db.lecturers == CascadeProfiles(old(db.lecturers), db.users)
    && db.students == CascadeProfiles(old(db.students), db.users)
    && db.courses == DetachCourses(old(db.courses), db.lecturers)
    && db.registrations == CascadeRegistrations(old(db.registrations), db.students, db.courses)
    && db.results == CascadeResults(old(db.results), db.registrations, db.lecturers, db.users)
    && db.nextRegistrationId == old(db.nextRegistrationId) && db.nextResultId == old(db.nextResultId)
  }

  /** `admin_delete`: on a POST the account goes, and the profile with it. */
  method AdminDelete(db: Database, req: Requester, pk: AdminId, isPost: bool) returns (resp: Response)
    requires db.Valid()
    modifies db
    ensures db.Valid()
    ensures resp == LoginRedirect <==> !AdminAllowed(req, old(db.users))
    ensures resp == NotFound <==> AdminAllowed(req, old(db.users)) && pk !in old(db.admins)
    ensures resp == Rendered <==> AdminAllowed(req, old(db.users)) && pk in old(db.admins) && !isPost
    ensures resp == Redirected <==> AdminAllowed(req, old(db.users)) && pk in old(db.admins) && isPost
    ensures resp != Redirected ==> unchanged(db)
    ensures resp == Redirected ==> UserDeleted(db, old(db.admins[pk])) && pk !in db.admins
  {
    if !AdminAllowed(req, db.users) {
      return LoginRedirect;
    }
    if pk !in db.admins {
      return NotFound;
    }
    if !isPost {
      return Rendered;
    }
    db.DeleteUser(db.admins[pk]);
    // The profile row went with its account, so the view's own delete of it removes nothing.
    return Redirected;
  }

  /** `lecturer_delete`: on a POST the account goes, and the profile with it; the courses and
      results that named the lecturer keep their rows and lose the link. */
  method LecturerDelete(db: Database, req: Requester, pk: LecturerId, isPost: bool) returns (resp: Response)
    requires db.Valid()
    modifies db
    ensures db.Valid()
    ensures resp == LoginRedirect <==> !AdminAllowed(req, old(db.users))
    ensures resp == NotFound <==> AdminAllowed(req, old(db.users)) && pk !in old(db.lecturers)
    ensures resp == Rendered <==> AdminAllowed(req, old(db.users)) && pk in old(db.lecturers) && !isPost
    ensures resp == Redirected <==> AdminAllowed(req, old(db.users)) && pk in old(db.lecturers) && isPost
    ensures resp != Redirected ==> unchanged(db)
    ensures resp == Redirected ==> UserDeleted(db, old(db.lecturers[pk])) && pk !in db.lecturers
  {
    if !AdminAllowed(req, db.users) {
      return LoginRedirect;
    }
    if pk !in db.lecturers {
      return NotFound;
    }
    if !isPost {
      return Rendered;
    }
    db.DeleteUser(db.lecturers[pk]);
    // The profile row went with its account, so the view's own delete of it removes nothing.
    return Redirected;
  }

  /** `student_delete`: on a POST the account goes, and the profile with it, together with
      the student's registrations and their results. */
  method StudentDelete(db: Database, req: Requester, pk: StudentId, isPost: bool) returns (resp: Response)
    requires db.Valid()
    modifies db
    ensures db.Valid()
    ensures resp == LoginRedirect <==> !AdminAllowed(req, old(db.users))
    ensures resp == NotFound <==> AdminAllowed(req, old(db.users)) && pk !in old(db.students)
    ensures resp == Rendered <==> AdminAllowed(req, old(db.users)) && pk in old(db.students) && !isPost
    ensures resp == Redirected <==> AdminAllowed(req, old(db.users)) && pk in old(db.students) && isPost
    ensures resp != Redirected ==> unchanged(db)
    ensures resp == Redirected ==> UserDeleted(db, old(db.students[pk])) && pk !in db.students
  {
    if !AdminAllowed(req, db.users) {
      return LoginRedirect;
    }
    if pk !in db.students {
      return NotFound;
    }
    if !isPost {
      return Rendered;
    }
    db.DeleteUser(db.students[pk]);
    // The profile row went with its account, so the view's own delete of it removes nothing.
    return Redirected;
  }
}
