/** The tables behind the academic records: the registration and result rows declared in
    students/models.py, together with the users, profiles and courses they reference.
    Each table is a map from primary key to row; `Database.Valid()` holds the constraints
    the schema declares (foreign keys, `unique_together`, one-to-one links), and every
    deletion is "remove the row, then apply each foreign key's ON DELETE rule". */
module Records {

  datatype Option<T> = None | Some(value: T)

  type UserId = nat
  type AdminId = nat
  type LecturerId = nat
  type StudentId = nat
  type CourseId = nat
  type RegistrationId = nat
  type ResultId = nat

  /** The choices declared for `CourseRegistration.semester`. */
  const SemesterChoices: set<string> := {"First", "Second"}

  /** The choices of `Result.status`; a new result takes the default, `Pending`. */
  datatype Status = Pending | Approved

  /** An account; `role` is one of 'student', 'lecturer', 'admin' when created through the forms. */
  datatype User = User(username: string, role: string)

  /** The fields of a course that the modelled views read or write. */
  datatype Course = Course(code: string, title: string, creditUnit: int, assignedLecturer: Option<LecturerId>)

  /** A `CourseRegistration` row. */
  datatype Registration = Registration(student: StudentId, course: CourseId, session: string, semester: string)

  /** A `Result` row; `score` counts hundredths (a decimal with two places). */
  datatype Result = Result(registration: RegistrationId, score: int, grade: string, status: Status,
                           submittedBy: Option<LecturerId>, approvedBy: Option<UserId>)

  /** Who sent the request: nobody, or the account stored in the session. */
  datatype Requester = Anonymous | SignedIn(user: UserId)

  /** The request carries a user that still exists. */
  predicate Authenticated(req: Requester, users: map<UserId, User>)
  {
    req.SignedIn? && req.user in users
  }

  ghost predicate Injective<K, V>(m: map<K, V>)
  {
    forall a, b :: a in m && b in m && m[a] == m[b] ==> a == b
  }

  /** The registration entries of a table, as a set of rows. */
  function Rows(m: map<RegistrationId, Registration>): set<Registration>
  {
    set id | id in m :: m[id]
  }

  /** Every key of a table lies below the next key the table will hand out. */
  predicate KeysBelow<V>(m: map<nat, V>, next: nat)
  {
    forall k :: k in m ==> k < next
  }

  /** The registration table, and its next key, after `get_or_create` of one row: unchanged
      when an identical row exists, otherwise the row is added under the next key. */
  function GetOrCreate(regs: map<RegistrationId, Registration>, next: nat, reg: Registration)
    : (r: (map<RegistrationId, Registration>, nat))
    requires KeysBelow(regs, next)
    ensures KeysBelow(r.0, r.1) && next <= r.1
    ensures Rows(r.0) == Rows(regs) + {reg}
    ensures forall id :: id in regs ==> id in r.0 && r.0[id] == regs[id]
    ensures reg in Rows(regs) ==> r == (regs, next)
    ensures r.0.Keys <= regs.Keys + {next}
  {
    if reg in Rows(regs) then (regs, next)
    else
      var m := regs[next := reg];
      assert Rows(m) == Rows(regs) + {reg} by {
        forall x | x in Rows(regs) ensures x in Rows(m) {
          var id :| id in regs && regs[id] == x;
          assert m[id] == x;
        }
        assert m[next] == reg;
      }
      (m, next + 1)
  }

  // ---------------------------------------------------------------------------
  // Integrity of each table

  ghost predicate ProfilesValid(users: map<UserId, User>, profiles: map<nat, UserId>)
  {
    && (forall p :: p in profiles ==> profiles[p] in users)
    && Injective(profiles)
  }

  ghost predicate CoursesValid(courses: map<CourseId, Course>, lecturers: map<LecturerId, UserId>)
  {
    forall c :: c in courses && courses[c].assignedLecturer.Some? ==> courses[c].assignedLecturer.value in lecturers
  }

  ghost predicate RegistrationsValid(registrations: map<RegistrationId, Registration>,
                                     students: map<StudentId, UserId>, courses: map<CourseId, Course>,
                                     nextId: nat)
  {
    && (forall r :: r in registrations ==>
          registrations[r].student in students && registrations[r].course in courses && r < nextId)
    && Injective(registrations)
  }

  ghost predicate ResultsValid(results: map<ResultId, Result>, registrations: map<RegistrationId, Registration>,
                               lecturers: map<LecturerId, UserId>, users: map<UserId, User>, nextId: nat)
  {
    && (forall x :: x in results ==>
          && results[x].registration in registrations
          && x < nextId
          && (results[x].submittedBy.Some? ==> results[x].submittedBy.value in lecturers)
          && (results[x].approvedBy.Some? ==> results[x].approvedBy.value in users))
    && (forall x, y :: x in results && y in results && results[x].registration == results[y].registration ==> x == y)
  }

  // ---------------------------------------------------------------------------
  // ON DELETE rules, applied to what is left after rows were removed

  /** Profiles are `OneToOneField(CustomUser, on_delete=CASCADE)`. */
  function CascadeProfiles(profiles: map<nat, UserId>, users: map<UserId, User>): map<nat, UserId>
  {
    map p | p in profiles && profiles[p] in users :: profiles[p]
  }

  /** `Course.assigned_lecturer` is SET_NULL. */
  function DetachCourses(courses: map<CourseId, Course>, lecturers: map<LecturerId, UserId>): map<CourseId, Course>
  {
    map c | c in courses ::
      if courses[c].assignedLecturer.Some? && courses[c].assignedLecturer.value !in lecturers
      then courses[c].(assignedLecturer := None) else courses[c]
  }

  /** `CourseRegistration.student` and `.course` are CASCADE. */
  function CascadeRegistrations(registrations: map<RegistrationId, Registration>,
                                students: map<StudentId, UserId>, courses: map<CourseId, Course>): map<RegistrationId, Registration>
  {
    map r | r in registrations && registrations[r].student in students && registrations[r].course in courses :: registrations[r]
  }

  /** `Result.submitted_by` and `.approved_by` are SET_NULL. */
  function Detach(res: Result, lecturers: map<LecturerId, UserId>, users: map<UserId, User>): Result
  {
    res.(submittedBy := if res.submittedBy.Some? && res.submittedBy.value !in lecturers then None else res.submittedBy,
         approvedBy := if res.approvedBy.Some? && res.approvedBy.value !in users then None else res.approvedBy)
  }

  /** `Result.registration` is CASCADE; the nullable links are detached. */
  function CascadeResults(results: map<ResultId, Result>, registrations: map<RegistrationId, Registration>,
                          lecturers: map<LecturerId, UserId>, users: map<UserId, User>): map<ResultId, Result>
  {
    map x | x in results && results[x].registration in registrations :: Detach(results[x], lecturers, users)
  }

  lemma DetachedCoursesValid(courses: map<CourseId, Course>, lecturers: map<LecturerId, UserId>)
    ensures CoursesValid(DetachCourses(courses, lecturers), lecturers)
    ensures DetachCourses(courses, lecturers).Keys == courses.Keys
  {
  }

  lemma CascadedRegistrationsValid(registrations: map<RegistrationId, Registration>,
                                   students: map<StudentId, UserId>, courses: map<CourseId, Course>, nextId: nat)
    requires Injective(registrations) && forall r :: r in registrations ==> r < nextId
    ensures RegistrationsValid(CascadeRegistrations(registrations, students, courses), students, courses, nextId)
  {
    var m := CascadeRegistrations(registrations, students, courses);
    forall a, b | a in m && b in m && m[a] == m[b] ensures a == b {
      assert registrations[a] == m[a] && registrations[b] == m[b];
    }
  }

  lemma CascadedResultsValid(results: map<ResultId, Result>, registrations: map<RegistrationId, Registration>,
                             lecturers: map<LecturerId, UserId>, users: map<UserId, User>, nextId: nat)
    requires forall x, y :: x in results && y in results && results[x].registration == results[y].registration ==> x == y
    requires forall x :: x in results ==> x < nextId
    ensures ResultsValid(CascadeResults(results, registrations, lecturers, users), registrations, lecturers, users, nextId)
  {
    var m := CascadeResults(results, registrations, lecturers, users);
    forall x | x in m ensures m[x].registration == results[x].registration {
    }
  }

  lemma DetachCoursesUnchanged(courses: map<CourseId, Course>, lecturers: map<LecturerId, UserId>)
    requires CoursesValid(courses, lecturers)
    ensures DetachCourses(courses, lecturers) == courses
  {
    var m := DetachCourses(courses, lecturers);
    assert forall c :: c in m ==> m[c] == courses[c];
  }

  lemma CascadeRegistrationsUnchanged(registrations: map<RegistrationId, Registration>,
                                      students: map<StudentId, UserId>, courses: map<CourseId, Course>)
    requires forall r :: r in registrations ==> registrations[r].student in students && registrations[r].course in courses
    ensures CascadeRegistrations(registrations, students, courses) == registrations
  {
  }

  /** With every link of every result still valid, cascading only drops the results whose
      registration is gone. */
  lemma CascadeResultsFilters(results: map<ResultId, Result>, registrations: map<RegistrationId, Registration>,
                              lecturers: map<LecturerId, UserId>, users: map<UserId, User>)
    requires forall x :: x in results ==>
      && (results[x].submittedBy.Some? ==> results[x].submittedBy.value in lecturers)
      && (results[x].approvedBy.Some? ==> results[x].approvedBy.value in users)
    ensures CascadeResults(results, registrations, lecturers, users)
         == map x | x in results && results[x].registration in registrations :: results[x]
  {
    var m := CascadeResults(results, registrations, lecturers, users);
    assert forall x :: x in m ==> m[x] == results[x];
  }

  /** When every result's registration exists, dropping registration `id` drops exactly the
      results that point at it. */
  lemma DropOneRegistration(results: map<ResultId, Result>, registrations: map<RegistrationId, Registration>,
                            id: RegistrationId)
    requires forall x :: x in results ==> results[x].registration in registrations
    ensures (map x | x in results && results[x].registration in registrations - {id} :: results[x])
         == (map x | x in results && results[x].registration != id :: results[x])
  {
  }

  /** Every result whose registration survives a deletion survives it; losing its lecturer or
      its approver only clears that link. */
  lemma {:induction false} SetNullKeepsResults(results: map<ResultId, Result>, registrations: map<RegistrationId, Registration>,
                                               lecturers: map<LecturerId, UserId>, users: map<UserId, User>, x: ResultId)
    requires x in results && results[x].registration in registrations
    ensures x in CascadeResults(results, registrations, lecturers, users)
    ensures var r := CascadeResults(results, registrations, lecturers, users)[x];
      && r.registration == results[x].registration && r.score == results[x].score
      && r.grade == results[x].grade && r.status == results[x].status
      && (r.submittedBy.Some? ==> r.submittedBy.value in lecturers && r.submittedBy == results[x].submittedBy)
      && (r.approvedBy.Some? ==> r.approvedBy.value in users && r.approvedBy == results[x].approvedBy)
  {
  }

  class Database {
    var users: map<UserId, User>
    var admins: map<AdminId, UserId>
    var lecturers: map<LecturerId, UserId>
    var students: map<StudentId, UserId>
    var courses: map<CourseId, Course>
    var registrations: map<RegistrationId, Registration>
    var results: map<ResultId, Result>
    var nextRegistrationId: nat
    var nextResultId: nat

    ghost predicate Valid()
      reads this
    {
      && ProfilesValid(users, admins)
      && ProfilesValid(users, lecturers)
      && ProfilesValid(users, students)
      && CoursesValid(courses, lecturers)
      && RegistrationsValid(registrations, students, courses, nextRegistrationId)
      && ResultsValid(results, registrations, lecturers, users, nextResultId)
    }

    constructor ()
      ensures Valid()
      ensures users == map[] && admins == map[] && lecturers == map[] && students == map[]
      ensures courses == map[] && registrations == map[] && results == map[]
    {
      users, admins, lecturers, students := map[], map[], map[], map[];
      courses, registrations, results := map[], map[], map[];
      nextRegistrationId, nextResultId := 0, 0;
    }

    /** The student profile linked to an account, if any (`get_object_or_404(Student, user=...)`). */
    method FindStudent(u: UserId) returns (s: Option<StudentId>)
      requires Valid()
      ensures s.Some? <==> u in students.Values
      ensures s.Some? ==> s.value in students && students[s.value] == u
    {
      if exists k :: k in students && students[k] == u {
        var k :| k in students && students[k] == u;
        s := Some(k);
      } else {
        s := None;
      }
    }

    /** `CourseRegistration.objects.get_or_create(...)`: the row that already carries these
        four fields, or a new row under a fresh key. */
    method GetOrCreateRegistration(reg: Registration) returns (id: RegistrationId, created: bool)
      requires Valid()
      requires reg.student in students && reg.course in courses
      modifies this`registrations, this`nextRegistrationId
      ensures Valid()
      ensures created <==> reg !in Rows(old(registrations))
      ensures (registrations, nextRegistrationId) == GetOrCreate(old(registrations), old(nextRegistrationId), reg)
      ensures id in registrations && registrations[id] == reg
    {
      if exists k :: k in registrations && registrations[k] == reg {
        id :| id in registrations && registrations[id] == reg;
        created := false;
      } else {
        id := nextRegistrationId;
        registrations := registrations[id := reg];
        nextRegistrationId := nextRegistrationId + 1;
        created := true;
      }
    }

    /** `Result.objects.create(...)`: a registration holds at most one result (the one-to-one
        link), and a new result starts Pending with no approver. */
    method CreateResult(reg: RegistrationId, score: int, grade: string, submittedBy: Option<LecturerId>)
      returns (id: Option<ResultId>)
      requires Valid()
      requires reg in registrations
      requires submittedBy.Some? ==> submittedBy.value in lecturers
      modifies this`results, this`nextResultId
      ensures Valid()
      ensures id.None? <==> exists x :: x in old(results) && old(results)[x].registration == reg
      ensures id.None? ==> results == old(results)
      ensures id.Some? ==> (id.value !in old(results)
        && results == old(results)[id.value := Result(reg, score, grade, Pending, submittedBy, None)])
    {
      if exists x :: x in results && results[x].registration == reg {
        id := None;
      } else {
        var x := nextResultId;
        results := results[x := Result(reg, score, grade, Pending, submittedBy, None)];
        nextResultId := nextResultId + 1;
        id := Some(x);
      }
    }

    /** Applies every ON DELETE rule after rows were removed: profiles of removed users go,
        registrations of removed students or courses go, results of removed registrations go,
        and links to removed lecturers or users are cleared. */
    method Reconcile()
      requires ProfilesValid(users, admins) && ProfilesValid(users, lecturers) && ProfilesValid(users, students)
      requires Injective(registrations) && forall r :: r in registrations ==> r < nextRegistrationId
      requires forall x, y :: x in results && y in results && results[x].registration == results[y].registration ==> x == y
      requires forall x :: x in results ==> x < nextResultId
      modifies this`courses, this`registrations, this`results
      ensures Valid()
      ensures courses == DetachCourses(old(courses), lecturers)
      ensures registrations == CascadeRegistrations(old(registrations), students, courses)
      ensures results == CascadeResults(old(results), registrations, lecturers, users)
    {
      DetachedCoursesValid(courses, lecturers);
      courses := DetachCourses(courses, lecturers);
      CascadedRegistrationsValid(registrations, students, courses, nextRegistrationId);
      registrations := CascadeRegistrations(registrations, students, courses);
      CascadedResultsValid(results, registrations, lecturers, users, nextResultId);
      results := CascadeResults(results, registrations, lecturers, users);
    }

    /** `registration.delete()`: its result goes with it. */
    method DeleteRegistration(id: RegistrationId)
      requires Valid()
      modifies this`courses, this`registrations, this`results
      ensures Valid()
      ensures courses == old(courses)
      ensures registrations == old(registrations) - {id}
      ensures results == map x | x in old(results) && old(results)[x].registration != id :: old(results)[x]
    {
      DetachCoursesUnchanged(courses, lecturers);
      CascadeRegistrationsUnchanged(registrations - {id}, students, courses);
      CascadeResultsFilters(results, registrations - {id}, lecturers, users);
      DropOneRegistration(results, registrations, id);
      registrations := registrations - {id};
      Reconcile();
    }

    /** `student.delete()`: its registrations, and their results, go with it. */
    method DeleteStudent(s: StudentId)
      requires Valid()
      modifies this`students, this`courses, this`registrations, this`results
      ensures Valid()
      ensures students == old(students) - {s} && courses == old(courses)
      ensures registrations == map r | r in old(registrations) && old(registrations)[r].student != s :: old(registrations)[r]
      ensures results == map x | x in old(results) && old(results)[x].registration in registrations :: old(results)[x]
    {
      DetachCoursesUnchanged(courses, lecturers);
      ghost var left := map r | r in registrations && registrations[r].student != s :: registrations[r];
      assert CascadeRegistrations(registrations, students - {s}, courses) == left;
      CascadeResultsFilters(results, left, lecturers, users);
      students := students - {s};
      Reconcile();
    }

    /** `lecturer.delete()`: courses and results keep their rows and lose the link. */
    method DeleteLecturer(l: LecturerId)
      requires Valid()
      modifies this`lecturers, this`courses, this`registrations, this`results
      ensures Valid()
      ensures lecturers == old(lecturers) - {l} && registrations == old(registrations)
      ensures courses == DetachCourses(old(courses), lecturers)
      ensures results == CascadeResults(old(results), registrations, lecturers, users)
      ensures results.Keys == old(results).Keys
    {
      lecturers := lecturers - {l};
      Reconcile();
    }

    /** `user.delete()`: the account's profiles go, with everything that cascades from them,
        and results it approved lose their approver. */
    method DeleteUser(u: UserId)
      requires Valid()
      modifies this
      ensures Valid()
      ensures users == old(users) - {u}
      ensures admins == CascadeProfiles(old(admins), users)
      ensures lecturers == CascadeProfiles(old(lecturers), users)
      ensures students == CascadeProfiles(old(students), users)
      ensures courses == DetachCourses(old(courses), lecturers)
      ensures registrations == CascadeRegistrations(old(registrations), students, courses)
      ensures results == CascadeResults(old(results), registrations, lecturers, users)
      ensures nextRegistrationId == old(nextRegistrationId) && nextResultId == old(nextResultId)
    {
      users := users - {u};
      admins := CascadeProfiles(admins, users);
      lecturers := CascadeProfiles(lecturers, users);
      students := CascadeProfiles(students, users);
      Reconcile();
    }
  }
}
