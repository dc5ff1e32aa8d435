/** The registration views of students/views.py: `register_courses`, which files one
    registration per selected course with `get_or_create`, and `drop_course`, which deletes
    a registration of the signed-in student unless a result was submitted for it. Both sit
    behind `login_required`, and both first look up the student profile of the account. */
module StudentViews {
  import opened Records

  /** What a view answers with; the page it renders or redirects to is not modelled. */
  datatype Response =
    | LoginRequired           // redirect to the login page
    | NotFound                // 404 from `get_object_or_404`
    | ShowForm                // the registration form, on a GET
    | MissingTerm             // session or semester left empty
    | NoCourseSelected        // no course ticked
    | CourseNotFound(course: CourseId)   // 404 on a selected course, part way through the loop
    | Registered              // every selected course processed
    | ResultSubmitted         // a result exists: the drop is refused
    | ConfirmDrop             // the confirmation page, on a GET
    | Dropped                 // the registration was deleted

  // ---------------------------------------------------------------------------
  // What `register_courses` does to the registration table

  /** The rows a request asks for: one per selected course, for the same student and term. */
  function Requested(student: StudentId, courses: seq<CourseId>, session: string, semester: string): set<Registration>
  {
    set c | c in courses :: Registration(student, c, session, semester)
  }

  /** The registration table, and its next key, after `get_or_create` of each selected course
      in turn. */
  function Register(regs: map<RegistrationId, Registration>, next: nat, student: StudentId,
                    courses: seq<CourseId>, session: string, semester: string)
    : (r: (map<RegistrationId, Registration>, nat))
    requires KeysBelow(regs, next)
    ensures KeysBelow(r.0, r.1) && next <= r.1
  {
    if courses == [] then (regs, next)
    else
      var p := Register(regs, next, student, courses[..|courses| - 1], session, semester);
      GetOrCreate(p.0, p.1, Registration(student, courses[|courses| - 1], session, semester))
  }

  /** Registering keeps every existing row under its key and adds exactly the requested rows. */
  lemma {:induction false} RegisterRows(regs: map<RegistrationId, Registration>, next: nat, student: StudentId,
                                        courses: seq<CourseId>, session: string, semester: string)
    requires KeysBelow(regs, next)
    ensures var m := Register(regs, next, student, courses, session, semester).0;
      && Rows(m) == Rows(regs) + Requested(student, courses, session, semester)
      && forall id :: id in regs ==> id in m && m[id] == regs[id]
  {
    if courses != [] {
      var init, c := courses[..|courses| - 1], courses[|courses| - 1];
      RegisterRows(regs, next, student, init, session, semester);
      assert courses == init + [c];
      assert Requested(student, courses, session, semester)
          == Requested(student, init, session, semester) + {Registration(student, c, session, semester)};
    }
  }

  /** A request whose rows all exist already leaves the table and its key counter alone. */
  lemma {:induction false} RegisterNothingNew(regs: map<RegistrationId, Registration>, next: nat, student: StudentId,
                                              courses: seq<CourseId>, session: string, semester: string)
    requires KeysBelow(regs, next)
    requires Requested(student, courses, session, semester) <= Rows(regs)
    ensures Register(regs, next, student, courses, session, semester) == (regs, next)
  {
    if courses != [] {
      var init, c := courses[..|courses| - 1], courses[|courses| - 1];
      assert Requested(student, init, session, semester) <= Requested(student, courses, session, semester);
      RegisterNothingNew(regs, next, student, init, session, semester);
      assert Registration(student, c, session, semester) in Requested(student, courses, session, semester);
    }
  }

  /** Sending the same registration request twice adds nothing the second time. */
  lemma RegisterIdempotent(regs: map<RegistrationId, Registration>, next: nat, student: StudentId,
                           courses: seq<CourseId>, session: string, semester: string)
    requires KeysBelow(regs, next)
    ensures var p := Register(regs, next, student, courses, session, semester);
      Register(p.0, p.1, student, courses, session, semester) == p
  {
    var p := Register(regs, next, student, courses, session, semester);
    RegisterRows(regs, next, student, courses, session, semester);
    RegisterNothingNew(p.0, p.1, student, courses, session, semester);
  }

  /** `get_or_create` keeps `unique_together`: no two keys carry the same row. */
  lemma GetOrCreateUnique(regs: map<RegistrationId, Registration>, next: nat, reg: Registration)
    requires KeysBelow(regs, next) && Injective(regs)
    ensures Injective(GetOrCreate(regs, next, reg).0)
  {
    if reg !in Rows(regs) {
      assert forall a :: a in regs ==> regs[a] in Rows(regs);
    }
  }

  /** After a registration request each selected course has exactly one row for the term:
      the table keeps `unique_together`. */
  lemma {:induction false} RegisterUnique(regs: map<RegistrationId, Registration>, next: nat, student: StudentId,
                                          courses: seq<CourseId>, session: string, semester: string)
    requires KeysBelow(regs, next) && Injective(regs)
    ensures Injective(Register(regs, next, student, courses, session, semester).0)
  {
    if courses != [] {
      var init := courses[..|courses| - 1];
      RegisterUnique(regs, next, student, init, session, semester);
      var p := Register(regs, next, student, init, session, semester);
      GetOrCreateUnique(p.0, p.1, Registration(student, courses[|courses| - 1], session, semester));
    }
  }

  /** A table whose semesters are all declared choices stays so when the requested semester
      is one of them. */
  lemma RegisterKeepsSemesterChoices(regs: map<RegistrationId, Registration>, next: nat, student: StudentId,
                                     courses: seq<CourseId>, session: string, semester: string)
    requires KeysBelow(regs, next)
    requires forall x :: x in Rows(regs) ==> x.semester in SemesterChoices
    requires semester in SemesterChoices
    ensures forall x :: x in Rows(Register(regs, next, student, courses, session, semester).0) ==>
      x.semester in SemesterChoices
  {
    RegisterRows(regs, next, student, courses, session, semester);
  }

  /** The view stores the posted semester as it comes: the declared choices are not checked. */
  lemma RegisterStoresUndeclaredSemester()
    ensures var m := Register(map[], 0, 7, [3], "2024/2025", "Third").0;
      exists x :: x in Rows(m) && x.semester !in SemesterChoices
  {
    RegisterRows(map[], 0, 7, [3], "2024/2025", "Third");
    assert Registration(7, 3, "2024/2025", "Third") in Requested(7, [3], "2024/2025", "Third");
  }

  // ---------------------------------------------------------------------------
  // The views

  /** The account has a student profile. */
  predicate HasProfile(students: map<StudentId, UserId>, u: UserId)
  {
    exists s :: s in students && students[s] == u
  }

  /** `register_courses`: gate, look up the profile, validate the posted term and course list,
      then `get_or_create` one registration per course; a 404 on a course ends the request,
      and the registrations made before it stay. */
  method RegisterCourses(db: Database, req: Requester, isPost: bool, session: string, semester: string,
                         selected: seq<CourseId>) returns (resp: Response)
    requires db.Valid()
    modifies db`registrations, db`nextRegistrationId
    ensures db.Valid()
    ensures resp == LoginRequired <==> !Authenticated(req, db.users)
    ensures resp == NotFound <==> Authenticated(req, db.users) && !HasProfile(db.students, req.user)
    ensures resp == ShowForm <==> Authenticated(req, db.users) && HasProfile(db.students, req.user) && !isPost
    ensures resp == MissingTerm <==> Authenticated(req, db.users) && HasProfile(db.students, req.user) && isPost
                                     && (session == "" || semester == "")
    ensures resp == NoCourseSelected <==> Authenticated(req, db.users) && HasProfile(db.students, req.user) && isPost
                                          && session != "" && semester != "" && selected == []
    ensures resp.Registered? || resp.CourseNotFound? <==>
      Authenticated(req, db.users) && HasProfile(db.students, req.user) && isPost
      && session != "" && semester != "" && selected != []
    ensures !(resp.Registered? || resp.CourseNotFound?) ==>
      db.registrations == old(db.registrations) && db.nextRegistrationId == old(db.nextRegistrationId)
    ensures resp.Registered? ==> (
      && (forall c :: c in selected ==> c in db.courses)
      && exists s :: (s in db.students && db.students[s] == req.user
           && (db.registrations, db.nextRegistrationId)
              == Register(old(db.registrations), old(db.nextRegistrationId), s, selected, session, semester)))
    ensures resp.CourseNotFound? ==> exists k :: (
      && 0 <= k < |selected| && selected[k] == resp.course && resp.course !in db.courses
      && (forall j :: 0 <= j < k ==> selected[j] in db.courses)
      && exists s :: (s in db.students && db.students[s] == req.user
           && (db.registrations, db.nextRegistrationId)
              == Register(old(db.registrations), old(db.nextRegistrationId), s, selected[..k], session, semester)))
  {
    if !Authenticated(req, db.users) {
      return LoginRequired;
    }
    var student := db.FindStudent(req.user);
    if student.None? {
      return NotFound;
    }
    var s := student.value;
    if !isPost {
      return ShowForm;
    }
    if session == "" || semester == "" {
      return MissingTerm;
    }
    if selected == [] {
      return NoCourseSelected;
    }
    var missing := RegisterSelected(db, s, session, semester, selected);
    if missing.Some? {
      return CourseNotFound(missing.value);
    }
    return Registered;
  }

  /** The loop of `register_courses`: `get_or_create` for each selected course in turn, until
      a course that does not exist ends the request with a 404. */
  method RegisterSelected(db: Database, s: StudentId, session: string, semester: string, selected: seq<CourseId>)
    returns (missing: Option<CourseId>)
    requires db.Valid() && s in db.students
    modifies db`registrations, db`nextRegistrationId
    ensures db.Valid()
    ensures missing.None? ==> (
      && (forall c :: c in selected ==> c in db.courses)
      && (db.registrations, db.nextRegistrationId)
         == Register(old(db.registrations), old(db.nextRegistrationId), s, selected, session, semester))
    ensures missing.Some? ==> exists k :: (
      && 0 <= k < |selected| && selected[k] == missing.value && missing.value !in db.courses
      && (forall j :: 0 <= j < k ==> selected[j] in db.courses)
      && (db.registrations, db.nextRegistrationId)
         == Register(old(db.registrations), old(db.nextRegistrationId), s, selected[..k], session, semester))
  {
    var i := 0;
    while i < |selected|
      invariant 0 <= i <= |selected|
      invariant db.Valid()
      invariant forall j :: 0 <= j < i ==> selected[j] in db.courses
      invariant (db.registrations, db.nextRegistrationId)
             == Register(old(db.registrations), old(db.nextRegistrationId), s, selected[..i], session, semester)
    {
      var c := selected[i];
      if c !in db.courses {
        return Some(c);
      }
      var _, _ := db.GetOrCreateRegistration(Registration(s, c, session, semester));
      assert selected[..i + 1][..i] == selected[..i];
      i := i + 1;
    }
    assert selected[..i] == selected;
    return None;
  }

  /** The registration is the signed-in student's own. */
  predicate Owns(students: map<StudentId, UserId>, regs: map<RegistrationId, Registration>,
                 id: RegistrationId, u: UserId)
  {
    id in regs && regs[id].student in students && students[regs[id].student] == u
  }

  /** A result was submitted for the registration. */
  predicate HasResult(results: map<ResultId, Result>, id: RegistrationId)
  {
    exists x :: x in results && results[x].registration == id
  }

  /** `drop_course`: gate, look up the profile and the student's own registration, refuse when
      a result exists, delete on a POST and ask for confirmation otherwise. */
  method DropCourse(db: Database, req: Requester, id: RegistrationId, isPost: bool) returns (resp: Response)
    requires db.Valid()
    modifies db`courses, db`registrations, db`results
    ensures db.Valid()
    ensures db.courses == old(db.courses) && db.results == old(db.results)
    ensures resp == LoginRequired <==> !Authenticated(req, db.users)
    ensures resp == NotFound <==> Authenticated(req, db.users) && !Owns(db.students, old(db.registrations), id, req.user)
    ensures resp == ResultSubmitted <==>
      Authenticated(req, db.users) && Owns(db.students, old(db.registrations), id, req.user) && HasResult(db.results, id)
    ensures resp == ConfirmDrop <==>
      Authenticated(req, db.users) && Owns(db.students, old(db.registrations), id, req.user)
      && !HasResult(db.results, id) && !isPost
    ensures resp == Dropped <==>
      Authenticated(req, db.users) && Owns(db.students, old(db.registrations), id, req.user)
      && !HasResult(db.results, id) && isPost
    ensures db.registrations == if resp == Dropped then old(db.registrations) - {id} else old(db.registrations)
  {
    if !Authenticated(req, db.users) {
      return LoginRequired;
    }
    var student := db.FindStudent(req.user);
    if student.None? || id !in db.registrations || db.registrations[id].student != student.value {
      return NotFound;
    }
    if exists x :: x in db.results && db.results[x].registration == id {
      return ResultSubmitted;
    }
    if isPost {
      db.DeleteRegistration(id);
      return Dropped;
    }
    return ConfirmDrop;
  }
}
