# Academic records: transcripts, registration and result approval

This project models the academic-records core of a Django school-management application,
in Dafny, and proves properties of that model. It covers three parts.

- **Transcripts** (`transcripts.dfy`, module `Transcripts`). A student's results page and
  dashboard walk the student's course registrations in query order. They group them by
  (session, semester) in first-seen order and turn each letter grade into points (A=5 …
  E=1, anything else 0). They weigh the points by the course's credit units and derive a
  GPA per group and a credit-weighted CGPA. Both views run the same code, so one method,
  `Aggregate`, models both. GPA and CGPA are kept as integer hundredths: the ratio
  `points / credits` is rounded half up, and 0 is used when there are no credits.
- **The tables and their constraints** (`records.dfy`, module `Records`). The tables are
  users, profiles, courses, course registrations and results. The `Database` class keeps
  them as maps from primary key to row. `Valid()` holds the schema's constraints:
  - foreign keys;
  - `unique_together` on (student, course, session, semester);
  - one result per registration;
  - one profile per account.

  A deletion removes a row and then applies each foreign key's ON DELETE rule (CASCADE or
  SET_NULL).
- **The views** (`student_views.dfy` and `admin_views.dfy`):
  - `register_courses` (`get_or_create` per selected course) and `drop_course` (refused
    once a result exists);
  - the `admin_required` gate and the dashboard's course counts;
  - approving one result, or every pending result at once;
  - unassigning a course's lecturer;
  - the delete views, which remove a profile together with its account.

Each view returns a `Response` value in place of the page or redirect it produces.
Its contract gives the exact condition for each response, and says what the tables are
afterwards.

Where the declared constraints and the code disagree, the model follows the code:

- `CourseRegistration.semester` declares the choices First/Second, but `register_courses`
  stores whatever semester was posted. `get_or_create` does not validate choices, so a
  semester is a plain string here. `RegisterStoresUndeclaredSemester` exhibits this, and
  `RegisterKeepsSemesterChoices` states when the choices are kept.
- `credit_unit` is a plain integer field, so it may be zero or negative. The GPA bounds are
  proved for non-negative credit units. The zero-credit guard is modelled as written.

## Model

| member | source | states |
|---|---|---|
| Transcripts.GradePoint | students/views.py:142-154 | the points of a grade are at most 5, and positive exactly for the letters A–E |
| Transcripts.GradePointInverse | students/views.py:142-154 | A, B, C, D, E map to 5, 4, 3, 2, 1 and back, so the points order the letters strictly |
| Transcripts.RoundHundredths | students/views.py:178-183 | the result is `points / credits` rounded to the nearest hundredth: `2·c·h − c ≤ 200·p < 2·c·h + c` |
| Transcripts.Gpa | students/views.py:178-183 | 0 when there are no credits, otherwise the rounded ratio of points to credits |
| Transcripts.GpaWithinScale | students/views.py:178-183 | a ratio between 0 and 5 gives a GPA between 0.00 and 5.00 |
| Transcripts.Aggregate | students/views.py:118-189 | the groups are the distinct (session, semester) terms in first-seen order; each group holds its registrations' lines and totals, with GPA = Gpa(points, credits); CGPA = Gpa of the overall totals. The dashboard (students/views.py:14-85) runs the same computation line for line, so the contract holds for it too |
| Transcripts.Accumulate | students/views.py:129-175 | one loop iteration: opens the term's group if it is new, appends the registration's line, and adds its weighted points and credits to the group and to the overall totals |
| Transcripts.RateGroups | students/views.py:177-180 | every listed group gets the GPA of its own totals; nothing else changes |
| Transcripts.TalliedMeaning | students/views.py:125-175 | after the loop: the key order is the first-seen term list, each group holds exactly its term's registrations, and the overall totals are the sums over all registrations |
| Transcripts.SelectAbsent | students/views.py:131-132 | a term that has not been met yet has no registrations |
| Transcripts.TermsDistinct | students/views.py:131-132 | no group key is listed twice |
| Transcripts.TermsCover | students/views.py:129-132 | the group keys are exactly the terms of the registrations |
| Transcripts.TermsInFirstSeenOrder | students/views.py:129-132 | groups appear in first-seen order: each earlier-listed term occurs before any registration of a later one |
| Transcripts.GroupsPartition | students/views.py:156-162 | summing any weight group by group gives the sum over all registrations |
| Transcripts.TotalsAreSumsOverGroups | students/views.py:156-162 | the overall points and credits equal the sums of the groups' totals |
| Transcripts.EntriesCount | students/views.py:169-175 | one displayed line per registration |
| Transcripts.EveryRegistrationDisplayedOnce | students/views.py:169-175 | the groups' lines add up to the number of registrations |
| Transcripts.NoResultWeighsNothing | students/views.py:163-167 | a registration without a result shows no score, no grade and 'Pending', and removing it changes neither total |
| Transcripts.StatusDoesNotWeigh | students/views.py:134-162 | Pending results count exactly like Approved ones: lists that differ only in status have the same totals |
| Transcripts.PointsWithinScale | students/views.py:142-162 | with no negative credit unit, 0 ≤ points ≤ 5·credits |
| Transcripts.CgpaWithinScale | students/views.py:183 | with no negative credit unit, the CGPA lies between 0.00 and 5.00 |
| Transcripts.CgpaIsNotMeanOfGpas | students/views.py:157-162 | the CGPA is weighted by credits: term GPAs 5.00 and 1.00 can give a CGPA of 4.00 |
| Transcripts.KeyStringInjective | students/views.py:130 | when both semesters are declared choices, the string key `"{session} - {semester}"` determines the pair |
| Transcripts.KeyStringCollides | students/views.py:130 | outside the choices, two different terms can build the same string key |
| Records.GetOrCreate | students/views.py:213-218 | `get_or_create` keeps every row under its key and adds exactly the requested row: an existing row leaves the table and the key counter unchanged, and a missing one is filed once, under the key `next` and no other |
| Records.Database.FindStudent | students/views.py:194 | finds the account's student profile exactly when one exists |
| Records.Database.GetOrCreateRegistration | students/models.py:30-31 | creates a row exactly when no identical row exists, and keeps the table valid, including `unique_together` |
| Records.Database.CreateResult | students/models.py:40-46 | refuses a second result for a registration; a new result is Pending, with no approver |
| Records.Database.Reconcile | students/models.py:24-46 | applies each ON DELETE rule (CASCADE on registration links, SET_NULL on the lecturer and approver links) and restores every table constraint |
| Records.Database.DeleteRegistration | students/models.py:41 | deleting a registration deletes exactly its result; the other tables are unchanged |
| Records.Database.DeleteStudent | students/models.py:24 | deleting a student deletes their registrations and those registrations' results |
| Records.Database.DeleteLecturer | students/models.py:45 | deleting a lecturer keeps every result (its link is cleared) and detaches their courses |
| Records.Database.DeleteUser | students/models.py:7 | deleting an account deletes its profiles, with everything that cascades from them, and clears links that named it |
| Records.SetNullKeepsResults | students/models.py:45-46 | a result whose registration survives keeps its row, score, grade and status; a cleared link was a link to a deleted row |
| Records.CascadeResultsFilters | students/models.py:41 | with valid links, the cascade removes exactly the results of removed registrations |
| Records.DropOneRegistration | students/models.py:41 | removing registration `id` removes exactly the results that point at it |
| StudentViews.RegisterRows | students/views.py:211-218 | registering keeps every existing row under its key and adds exactly one row per selected course for the posted term |
| StudentViews.RegisterNothingNew | students/views.py:211-218 | a request whose rows already exist changes neither the table nor the key counter |
| StudentViews.RegisterIdempotent | students/views.py:211-218 | repeating the same request adds nothing |
| StudentViews.GetOrCreateUnique | students/models.py:30-31 | `get_or_create` keeps `unique_together` |
| StudentViews.RegisterUnique | students/models.py:30-31 | after a request, no two keys hold the same (student, course, session, semester) |
| StudentViews.RegisterKeepsSemesterChoices | students/models.py:27 | a table whose semesters are all declared choices stays so when the posted semester is a choice |
| StudentViews.RegisterStoresUndeclaredSemester | students/models.py:27 | a posted semester outside the choices is stored as given |
| StudentViews.RegisterCourses | students/views.py:192-226 | login and profile gates; a GET shows the form; a missing session or semester, or no course selected, changes nothing; otherwise the table is `Register` of the selected courses, up to the first unknown course, whose 404 keeps the rows already made |
| StudentViews.RegisterSelected | students/views.py:211-218 | the loop runs `get_or_create` over the selected courses in order until one is unknown |
| StudentViews.DropCourse | students/views.py:238-256 | only the owner's registration is found; a submitted result refuses the drop; a POST removes exactly that registration and no result; anything else changes nothing |
| AdministrationViews.DashboardStats | administration/views.py:31-37 | assigned + unassigned courses = total courses |
| AdministrationViews.AdminDashboard | administration/views.py:15-48 | only an authenticated account with role 'admin' gets the counts; anyone else is sent to login |
| AdministrationViews.Strip | students/models.py:43 | the form's `CharField` cleaning of the grade (`str.strip()`): the result is a slice of the posted text, everything cut off on either side is whitespace, and it neither starts nor ends with whitespace |
| AdministrationViews.StripIdempotent | students/models.py:43 | a cleaned grade is unchanged by cleaning it again |
| AdministrationViews.PaddedGradeIsStripped | administration/forms.py:168-176 | a posted grade "A  " passes the two-character limit once stripped and is saved as "A", worth 5 points on the transcript |
| AdministrationViews.ApproveWith | administration/views.py:273-278 | the saved result holds the posted score and the cleaned (stripped) grade, which has 1–2 characters and no surrounding whitespace, status Approved and the acting user as approver, and keeps its registration and submitter |
| AdministrationViews.ApproveResult | administration/views.py:267-283 | admin gate; 404 on an unknown result; a GET or an invalid form changes nothing; a valid POST replaces only that result, by ApproveWith. The form (administration/forms.py:168-176) is valid when the score has at most 5 digits with 2 after the point, the grade, stripped of surrounding whitespace, has 1–2 characters and no NUL character, and the status is a declared choice |
| AdministrationViews.ApproveAllResults | administration/views.py:285-297 | admin gate; on a POST the table becomes ApproveAll, and the reported count is the number of results that were pending; a GET changes nothing |
| AdministrationViews.StampEach | administration/views.py:291-294 | the loop stamps exactly the listed results, one at a time |
| AdministrationViews.ApproveAllClearsPending | administration/views.py:289-295 | no result is pending afterwards, and each formerly pending result has the acting user as approver |
| AdministrationViews.ApproveAllTouchesOnlyPending | administration/views.py:289-295 | results already approved are untouched; pending ones change only in status and approver |
| AdministrationViews.ApproveAllIdempotent | administration/views.py:289-295 | a second bulk approval, by anyone, changes nothing |
| AdministrationViews.ApproveAllValid | students/models.py:46 | approving by an existing account keeps the results table valid |
| AdministrationViews.StampPendingIsApproveAll | administration/views.py:289-294 | stamping the pending set is the bulk approval |
| AdministrationViews.UnassignCourse | administration/views.py:243-252 | admin gate; 404 on an unknown course; a POST clears only that course's lecturer and keeps its other fields; a GET changes nothing |
| AdministrationViews.AdminDelete | administration/views.py:113-123 | admin gate; 404 on an unknown profile; a GET changes nothing; a POST deletes the account and, with it, the profile and everything that cascades, and hands out no keys |
| AdministrationViews.LecturerDelete | administration/views.py:166-174 | same as AdminDelete, for a lecturer profile; courses and results that named the lecturer lose the link |
| AdministrationViews.StudentDelete | administration/views.py:213-221 | same as AdminDelete, for a student profile; the student's registrations and results go too |

## Left out

- Rendering, flash messages, redirect targets and URL routing. Each view returns a
  `Response` value instead.
- Authentication, sessions and password handling. A request carries the account id or
  nobody. The form `save` methods for accounts and profiles are not part of this model.
- The gate of the two transcript views (`login_required` and the student-profile 404). It
  is the same gate that `RegisterCourses` and `DropCourse` model.
- The query behind the transcript (the filter by student, the join with course, result and
  lecturer, and `order_by('session', 'semester')`). `Aggregate` takes the joined rows in
  the order the query returns them.
- Python's float `round(x, 2)`. GPA and CGPA are rounded half up to integer hundredths
  instead.
- `calculate_grade` (students/utils.py) is not part of this model. The stored letter grade
  is an input.
- Lecturer result submission: its views are absent from lecturers/views.py.
  `Database.CreateResult` states only the model-level rules for a new result.
- Rules the code does not enforce are not invented:
  - course prerequisites, `pass_mark`, `course_type`;
  - a check that a course belongs to the student's department;
  - `can_approve_results` / `can_manage_users`;
  - immutability of approved results.
- Course ids that do not parse as integers, and the `ValueError` they raise.
- The Department table and its cascades.
- The other fields of accounts, profiles and courses.
- Concurrency and atomicity. No view runs in a transaction, so the calls are modelled one at
  a time. A 404 part way through `register_courses` keeps the rows already created.
- AdministrationViews.AdminDelete, AdministrationViews.LecturerDelete,
  AdministrationViews.StudentDelete: after `user.delete()` the view's own `profile.delete()`
  finds no row left, because the profile cascaded with its account. It is therefore not a
  separate step.
- Transcripts.PointsWithinScale, Transcripts.CgpaWithinScale: proved only for non-negative
  credit units, because `credit_unit` is an unconstrained integer field.

## Findings

| source | as written | input that shows it | evidently intended | confidence | as-written member | corrected member |
|---|---|---|---|---|---|---|
| students/views.py:130 | groups by the string `f"{session} - {semester}"` | session "2024 - First", semester "X" and session "2024", semester "First - X" build the same key, because neither field is validated on registration | group by the (session, semester) pair | low, not executed | Transcripts.KeyStringCollides | Transcripts.Aggregate |
