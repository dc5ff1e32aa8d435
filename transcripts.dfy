/** The results page and the dashboard of a student (students/views.py): the registrations
    are walked in query order, grouped by (session, semester) in first-seen order, and each
    result's letter grade is turned into points weighted by the course's credit units, giving
    a GPA per group and a credit-weighted CGPA over the whole history. Both views run the
    same code, modelled once here by `Aggregate`. */
module Transcripts {
  import opened Records

  /** The course fields a transcript line shows and weighs. */
  datatype CourseInfo = CourseInfo(code: string, title: string, creditUnit: int)

  /** A result as the query joins it: `lecturer` is the submitting lecturer's full name, if any. */
  datatype ResultInfo = ResultInfo(score: int, grade: string, status: Status, lecturer: Option<string>)

  /** One registration of the student, joined with its course and its result, if any. */
  datatype Row = Row(session: string, semester: string, course: CourseInfo, result: Option<ResultInfo>)

  /** The grouping key. */
  datatype Term = Term(session: string, semester: string)

  /** One displayed line; a registration without a result shows no score, no grade and 'Pending'. */
  datatype Entry = Entry(course: CourseInfo, score: Option<int>, grade: Option<string>, status: Status, lecturer: string)

  /** The data kept per group; `gpa` counts hundredths. */
  datatype Group = Group(entries: seq<Entry>, totalPoints: int, totalCredits: int, gpa: int)

  /** What both views render: the groups in insertion order and the CGPA in hundredths. */
  datatype Transcript = Transcript(order: seq<Term>, groups: map<Term, Group>, cgpa: int)

  // ---------------------------------------------------------------------------
  // Grade points and rounding

  const Letters: set<string> := {"A", "B", "C", "D", "E"}

  /** The if-chain converting a stored letter grade to points. */
  function GradePoint(grade: string): (p: nat)
    ensures p <= 5
    ensures p > 0 <==> grade in Letters
  {
    if grade == "A" then 5
    else if grade == "B" then 4
    else if grade == "C" then 3
    else if grade == "D" then 2
    else if grade == "E" then 1
    else 0
  }

  /** The letter worth `p` points. */
  function LetterFor(p: nat): string
    requires 1 <= p <= 5
  {
    ["E", "D", "C", "B", "A"][p - 1]
  }

  /** GradePoint and LetterFor are inverse on the five recognised letters, and the points
      strictly order them: A > B > C > D > E > anything else. */
  lemma GradePointInverse(grade: string, p: nat)
    ensures 1 <= p <= 5 ==> GradePoint(LetterFor(p)) == p
    ensures GradePoint(grade) > 0 ==> LetterFor(GradePoint(grade)) == grade
  {
  }

  /** `p / c` rounded to the nearest hundredth, halves upward, as a number of hundredths. */
  function RoundHundredths(p: int, c: int): (h: int)
    requires c > 0
    ensures 2 * c * h - c <= 200 * p < 2 * c * h + c
  {
    var n := 200 * p + c;
    var q := n / (2 * c);
    assert n == 2 * c * q + n % (2 * c);
    q
  }

  /** The GPA rule: the rounded ratio of points to credits, and 0.00 without credits. */
  function Gpa(points: int, credits: int): (h: int)
    ensures credits <= 0 ==> h == 0
    ensures credits > 0 ==> 2 * credits * h - credits <= 200 * points < 2 * credits * h + credits
  {
    if credits > 0 then RoundHundredths(points, credits) else 0
  }

  /** Multiplying by a positive number keeps the sign. */
  lemma PositiveFactor(c: int, x: int)
    requires c > 0
    ensures x > 0 <==> c * x > 0
  {
  }

  /** A ratio of points to credits between 0 and 5 rounds to between 0.00 and 5.00. */
  lemma GpaWithinScale(points: int, credits: int)
    requires 0 <= points <= 5 * credits
    ensures 0 <= Gpa(points, credits) <= 500
  {
    if credits > 0 {
      var h := Gpa(points, credits);
      assert credits * (2 * h + 1) > 0;
      PositiveFactor(credits, 2 * h + 1);
      assert credits * (1001 - 2 * h) >= 0;
      PositiveFactor(credits, 2 * h - 1001);
    }
  }

  // ---------------------------------------------------------------------------
  // The per-registration contributions

  function TermOf(r: Row): Term
  {
    Term(r.session, r.semester)
  }

  function RowPoints(r: Row): int
  {
    if r.result.Some? then GradePoint(r.result.value.grade) * r.course.creditUnit else 0
  }

  function RowCredits(r: Row): int
  {
    if r.result.Some? then r.course.creditUnit else 0
  }

  function One(r: Row): int
  {
    1
  }

  function EntryOf(r: Row): Entry
  {
    match r.result
    case None => Entry(r.course, None, None, Pending, "-")
    case Some(res) => Entry(r.course, Some(res.score), Some(res.grade), res.status,
                            if res.lecturer.Some? then res.lecturer.value else "-")
  }

  // ---------------------------------------------------------------------------
  // Folds over the registrations, read from the last one back (the order the loop extends them)

  function Sum(rows: seq<Row>, w: Row -> int): int
  {
    if rows == [] then 0 else Sum(rows[..|rows| - 1], w) + w(rows[|rows| - 1])
  }

  function Points(rows: seq<Row>): int
  {
    Sum(rows, RowPoints)
  }

  function Credits(rows: seq<Row>): int
  {
    Sum(rows, RowCredits)
  }

  function Entries(rows: seq<Row>): seq<Entry>
  {
    if rows == [] then [] else Entries(rows[..|rows| - 1]) + [EntryOf(rows[|rows| - 1])]
  }

  /** The registrations of one term, in query order. */
  function Select(rows: seq<Row>, t: Term): seq<Row>
  {
    if rows == [] then []
    else Select(rows[..|rows| - 1], t) + (if TermOf(rows[|rows| - 1]) == t then [rows[|rows| - 1]] else [])
  }

  /** The terms in the order they are first met. */
  function Terms(rows: seq<Row>): seq<Term>
  {
    if rows == [] then []
    else
      var ts := Terms(rows[..|rows| - 1]);
      var t := TermOf(rows[|rows| - 1]);
      if t in ts then ts else ts + [t]
  }

  /** The group a finished term shows. */
  function GroupOf(rows: seq<Row>): Group
  {
    Group(Entries(rows), Points(rows), Credits(rows), Gpa(Points(rows), Credits(rows)))
  }

  /** A group while the loop still runs: its lines and totals so far, no GPA yet. */
  function Running(rows: seq<Row>, t: Term): Group
  {
    var sel := Select(rows, t);
    Group(Entries(sel), Points(sel), Credits(sel), 0)
  }

  /** The state the loop keeps: the groups in insertion order and the running totals. */
  datatype Tally = Tally(order: seq<Term>, grouped: map<Term, Group>, points: int, credits: int)

  /** Reading one registration: open its term's group if it is new, add its line, and add
      its weighted points and credits to the group and to the overall totals. */
  function Step(s: Tally, r: Row): Tally
  {
    var k := TermOf(r);
    var g := if k in s.grouped then s.grouped[k] else Group([], 0, 0, 0);
    Tally(if k in s.grouped then s.order else s.order + [k],
          s.grouped[k := g.(entries := g.entries + [EntryOf(r)],
                            totalPoints := g.totalPoints + RowPoints(r),
                            totalCredits := g.totalCredits + RowCredits(r))],
          s.points + RowPoints(r), s.credits + RowCredits(r))
  }

  /** The state after reading all of `rows`. */
  function Tallied(rows: seq<Row>): Tally
  {
    if rows == [] then Tally([], map[], 0, 0) else Step(Tallied(rows[..|rows| - 1]), rows[|rows| - 1])
  }

  /** A group once its GPA is written. */
  function Rated(g: Group): Group
  {
    g.(gpa := Gpa(g.totalPoints, g.totalCredits))
  }

  /** What the loop state means: the terms first-seen, each term's lines and totals, and
      the overall totals. */
  lemma {:induction false} TalliedMeaning(rows: seq<Row>)
    ensures Tallied(rows).order == Terms(rows)
    ensures forall k :: k in Tallied(rows).grouped <==> k in Terms(rows)
    ensures forall k :: k in Tallied(rows).grouped ==> Tallied(rows).grouped[k] == Running(rows, k)
    ensures Tallied(rows).points == Points(rows) && Tallied(rows).credits == Credits(rows)
  {
    if rows != [] {
      var init, r := rows[..|rows| - 1], rows[|rows| - 1];
      assert rows == init + [r];
      TalliedMeaning(init);
      ExtendByOne(init, r);
      var k := TermOf(r);
      if k !in Terms(init) {
        SelectAbsent(init, k);
      }
      forall t | t in Tallied(rows).grouped ensures Tallied(rows).grouped[t] == Running(rows, t) {
        RunningStep(init, r, t);
      }
    }
  }

  /** How a term's running group changes when one more registration is read. */
  lemma RunningStep(rows: seq<Row>, r: Row, t: Term)
    ensures TermOf(r) != t ==> Running(rows + [r], t) == Running(rows, t)
    ensures TermOf(r) == t ==> (Running(rows + [r], t) ==
      Running(rows, t).(entries := Running(rows, t).entries + [EntryOf(r)],
                        totalPoints := Running(rows, t).totalPoints + RowPoints(r),
                        totalCredits := Running(rows, t).totalCredits + RowCredits(r)))
  {
    var sel := Select(rows, t);
    assert (rows + [r])[..|rows|] == rows;
    if TermOf(r) == t {
      assert Select(rows + [r], t) == sel + [r];
      assert (sel + [r])[..|sel|] == sel;
    } else {
      assert Select(rows + [r], t) == sel + [];
      assert sel + [] == sel;
    }
  }

  /** How the term list and the overall totals change when one more registration is read. */
  lemma ExtendByOne(rows: seq<Row>, r: Row)
    ensures Terms(rows + [r]) == if TermOf(r) in Terms(rows) then Terms(rows) else Terms(rows) + [TermOf(r)]
    ensures Points(rows + [r]) == Points(rows) + RowPoints(r)
    ensures Credits(rows + [r]) == Credits(rows) + RowCredits(r)
  {
    assert (rows + [r])[..|rows|] == rows;
  }

  /** The sum, over a list of terms, of each term's share of `w`. */
  function SumOverTerms(rows: seq<Row>, ts: seq<Term>, w: Row -> int): int
  {
    if ts == [] then 0 else SumOverTerms(rows, ts[..|ts| - 1], w) + Sum(Select(rows, ts[|ts| - 1]), w)
  }

  /** The number of lines displayed over a list of terms. */
  function DisplayedOver(rows: seq<Row>, ts: seq<Term>): nat
  {
    if ts == [] then 0 else DisplayedOver(rows, ts[..|ts| - 1]) + |Entries(Select(rows, ts[|ts| - 1]))|
  }

  ghost predicate Distinct(ts: seq<Term>)
  {
    forall i, j :: 0 <= i < j < |ts| ==> ts[i] != ts[j]
  }

  // ---------------------------------------------------------------------------
  // The loop

  /** The aggregation of `student_view_results` and `student_dashboard`: one group per term
      in first-seen order, each holding its registrations' lines and totals and its GPA,
      and the CGPA over all registrations. */
  method Aggregate(rows: seq<Row>) returns (t: Transcript)
    ensures t.order == Terms(rows)
    ensures forall k :: k in t.groups <==> k in t.order
    ensures forall k :: k in t.groups ==> t.groups[k] == GroupOf(Select(rows, k))
    ensures t.cgpa == Gpa(Points(rows), Credits(rows))
  {
    var state := Tally([], map[], 0, 0);
    var i := 0;
    while i < |rows|
      invariant 0 <= i <= |rows|
      invariant state == Tallied(rows[..i])
    {
      assert rows[..i + 1][..i] == rows[..i];
      state := Accumulate(state, rows[i]);
      i := i + 1;
    }
    assert rows[..i] == rows;
    TalliedMeaning(rows);
    var grouped := RateGroups(state.order, state.grouped);
    var cgpa := if state.credits > 0 then RoundHundredths(state.points, state.credits) else 0;
    t := Transcript(state.order, grouped, cgpa);
  }

  /** The body of the registration loop: file one registration under its term. */
  method Accumulate(s: Tally, reg: Row) returns (s': Tally)
    ensures s' == Step(s, reg)
  {
    var grouped, order := s.grouped, s.order;
    var totalPointsAll, totalCreditsAll := s.points, s.credits;
    var key := Term(reg.session, reg.semester);
    if key !in grouped {
      grouped := grouped[key := Group([], 0, 0, 0)];
      order := order + [key];
    }
    var data := grouped[key];
    var entry: Entry;
    if reg.result.Some? {
      var res := reg.result.value;
      var gradePoint := GradePoint(res.grade);
      data := data.(totalPoints := data.totalPoints + gradePoint * reg.course.creditUnit,
                    totalCredits := data.totalCredits + reg.course.creditUnit);
      totalPointsAll := totalPointsAll + gradePoint * reg.course.creditUnit;
      totalCreditsAll := totalCreditsAll + reg.course.creditUnit;
      entry := Entry(reg.course, Some(res.score), Some(res.grade), res.status,
                     if res.lecturer.Some? then res.lecturer.value else "-");
    } else {
      entry := Entry(reg.course, None, None, Pending, "-");
    }
    data := data.(entries := data.entries + [entry]);
    grouped := grouped[key := data];
    s' := Tally(order, grouped, totalPointsAll, totalCreditsAll);
  }

  /** The GPA loop: write the rounded GPA of every group listed in `order`. */
  method RateGroups(order: seq<Term>, groups: map<Term, Group>) returns (rated: map<Term, Group>)
    requires forall k :: k in order ==> k in groups
    ensures rated.Keys == groups.Keys
    ensures forall k :: k in rated ==> rated[k] == if k in order then Rated(groups[k]) else groups[k]
  {
    rated := groups;
    var j := 0;
    while j < |order|
      invariant 0 <= j <= |order|
      invariant rated.Keys == groups.Keys
      invariant forall k :: k in rated ==>
        rated[k] == if k in order[..j] then Rated(groups[k]) else groups[k]
    {
      var key := order[j];
      var data := rated[key];
      rated := rated[key := data.(gpa := if data.totalCredits > 0 then RoundHundredths(data.totalPoints, data.totalCredits) else 0)];
      assert order[..j + 1] == order[..j] + [key];
      j := j + 1;
    }
    assert order[..j] == order;
  }

  // ---------------------------------------------------------------------------
  // Properties of the grouping

  /** A term not met yet has no registrations. */
  lemma {:induction false} SelectAbsent(rows: seq<Row>, t: Term)
    requires t !in Terms(rows)
    ensures Select(rows, t) == []
  {
    if rows != [] {
      var init := rows[..|rows| - 1];
      if t in Terms(init) {
      }
      SelectAbsent(init, t);
    }
  }

  /** No term is listed twice. */
  lemma {:induction false} TermsDistinct(rows: seq<Row>)
    ensures Distinct(Terms(rows))
  {
    if rows != [] {
      TermsDistinct(rows[..|rows| - 1]);
    }
  }

  /** The terms listed are exactly those of the registrations. */
  lemma {:induction false} TermsCover(rows: seq<Row>)
    ensures forall t :: t in Terms(rows) <==> exists n :: 0 <= n < |rows| && TermOf(rows[n]) == t
  {
    if rows != [] {
      var init := rows[..|rows| - 1];
      TermsCover(init);
      forall t ensures t in Terms(rows) <==> exists n :: 0 <= n < |rows| && TermOf(rows[n]) == t {
        if t in Terms(init) {
          var n :| 0 <= n < |init| && TermOf(init[n]) == t;
          assert TermOf(rows[n]) == t;
        }
        if exists n :: 0 <= n < |rows| && TermOf(rows[n]) == t {
          var n :| 0 <= n < |rows| && TermOf(rows[n]) == t;
          if n < |init| {
            assert TermOf(init[n]) == t;
          }
        }
      }
    }
  }

  /** Groups appear in first-seen order: every registration of a later-listed term comes after
      some registration of each earlier-listed term. */
  lemma {:induction false} TermsInFirstSeenOrder(rows: seq<Row>, i: nat, j: nat, n: nat)
    requires i < j < |Terms(rows)| && n < |rows| && TermOf(rows[n]) == Terms(rows)[j]
    ensures exists m :: 0 <= m < n && TermOf(rows[m]) == Terms(rows)[i]
  {
    var init := rows[..|rows| - 1];
    var ts := Terms(init);
    TermsCover(init);
    if j < |ts| {
      assert Terms(rows)[i] == ts[i] && Terms(rows)[j] == ts[j];
      if n < |init| {
        assert TermOf(init[n]) == ts[j];
        TermsInFirstSeenOrder(init, i, j, n);
        var m :| 0 <= m < n && TermOf(init[m]) == ts[i];
        assert TermOf(rows[m]) == Terms(rows)[i];
      } else {
        assert ts[j] in ts;
        var n' :| 0 <= n' < |init| && TermOf(init[n']) == ts[j];
        TermsInFirstSeenOrder(init, i, j, n');
        var m :| 0 <= m < n' && TermOf(init[m]) == ts[i];
        assert TermOf(rows[m]) == Terms(rows)[i];
      }
    } else {
      assert Terms(rows) == ts + [TermOf(rows[|rows| - 1])];
      assert ts[i] in ts;
      var m :| 0 <= m < |init| && TermOf(init[m]) == ts[i];
      assert forall n' :: 0 <= n' < |init| ==> TermOf(rows[n']) in ts by {
        forall n' | 0 <= n' < |init| ensures TermOf(rows[n']) in ts {
          assert TermOf(init[n']) == TermOf(rows[n']);
        }
      }
      assert n == |init|;
      assert TermOf(rows[m]) == Terms(rows)[i];
    }
  }

  // ---------------------------------------------------------------------------
  // Totals over groups

  lemma {:induction false} SumAppend(a: seq<Row>, b: seq<Row>, w: Row -> int)
    ensures Sum(a + b, w) == Sum(a, w) + Sum(b, w)
  {
    if b != [] {
      assert (a + b)[..|a + b| - 1] == a + b[..|b| - 1];
      SumAppend(a, b[..|b| - 1], w);
    } else {
      assert a + b == a;
    }
  }

  lemma {:induction false} SumOverTermsEmpty(ts: seq<Term>, w: Row -> int)
    ensures SumOverTerms([], ts, w) == 0
  {
    if ts != [] {
      SumOverTermsEmpty(ts[..|ts| - 1], w);
    }
  }

  /** Adding one registration adds its weight to the one listed term it belongs to. */
  lemma {:induction false} SumOverTermsStep(rows: seq<Row>, r: Row, ts: seq<Term>, w: Row -> int)
    requires Distinct(ts)
    ensures SumOverTerms(rows + [r], ts, w) == SumOverTerms(rows, ts, w) + (if TermOf(r) in ts then w(r) else 0)
  {
    if ts != [] {
      var init := ts[..|ts| - 1];
      var t := ts[|ts| - 1];
      SumOverTermsStep(rows, r, init, w);
      assert (rows + [r])[..|rows + [r]| - 1] == rows;
      if TermOf(r) == t {
        SumAppend(Select(rows, t), [r], w);
        assert TermOf(r) !in init;
      } else {
        assert Select(rows + [r], t) == Select(rows, t);
      }
      assert TermOf(r) in ts <==> TermOf(r) in init || TermOf(r) == t;
    }
  }

  /** Summing each listed term's share gives the whole, when the terms are distinct and
      every registration's term is listed. */
  lemma {:induction false} GroupsPartition(rows: seq<Row>, ts: seq<Term>, w: Row -> int)
    requires Distinct(ts)
    requires forall n :: 0 <= n < |rows| ==> TermOf(rows[n]) in ts
    ensures SumOverTerms(rows, ts, w) == Sum(rows, w)
  {
    if rows == [] {
      SumOverTermsEmpty(ts, w);
    } else {
      var init := rows[..|rows| - 1];
      var r := rows[|rows| - 1];
      assert rows == init + [r];
      GroupsPartition(init, ts, w);
      SumOverTermsStep(init, r, ts, w);
    }
  }

  lemma {:induction false} EntriesCount(rows: seq<Row>)
    ensures |Entries(rows)| == |rows| == Sum(rows, One)
  {
    if rows != [] {
      EntriesCount(rows[..|rows| - 1]);
    }
  }

  lemma {:induction false} DisplayedIsSum(rows: seq<Row>, ts: seq<Term>)
    ensures DisplayedOver(rows, ts) == SumOverTerms(rows, ts, One)
  {
    if ts != [] {
      DisplayedIsSum(rows, ts[..|ts| - 1]);
      EntriesCount(Select(rows, ts[|ts| - 1]));
    }
  }

  /** The overall totals behind the CGPA are the sums of the groups' totals. */
  lemma TotalsAreSumsOverGroups(rows: seq<Row>)
    ensures Points(rows) == SumOverTerms(rows, Terms(rows), RowPoints)
    ensures Credits(rows) == SumOverTerms(rows, Terms(rows), RowCredits)
  {
    TermsDistinct(rows);
    TermsCover(rows);
    GroupsPartition(rows, Terms(rows), RowPoints);
    GroupsPartition(rows, Terms(rows), RowCredits);
  }

  /** Every registration is displayed exactly once: the groups' lines add up to the
      number of registrations. */
  lemma EveryRegistrationDisplayedOnce(rows: seq<Row>)
    ensures DisplayedOver(rows, Terms(rows)) == |rows|
  {
    TermsDistinct(rows);
    TermsCover(rows);
    DisplayedIsSum(rows, Terms(rows));
    GroupsPartition(rows, Terms(rows), One);
    EntriesCount(rows);
  }

  /** A registration without a result is displayed but weighs nothing: removing it leaves the
      totals (and so the GPA of its term and the CGPA) unchanged. */
  lemma NoResultWeighsNothing(before: seq<Row>, r: Row, after: seq<Row>)
    requires r.result.None?
    ensures Points(before + [r] + after) == Points(before + after)
    ensures Credits(before + [r] + after) == Credits(before + after)
    ensures EntryOf(r) == Entry(r.course, None, None, Pending, "-")
  {
    SumAppend(before + [r], after, RowPoints);
    SumAppend(before, [r], RowPoints);
    SumAppend(before, after, RowPoints);
    SumAppend(before + [r], after, RowCredits);
    SumAppend(before, [r], RowCredits);
    SumAppend(before, after, RowCredits);
  }

  /** Two lists of registrations that differ only in the status of their results. */
  ghost predicate SameButStatus(a: seq<Row>, b: seq<Row>)
  {
    && |a| == |b|
    && forall n :: 0 <= n < |a| ==>
         && a[n].session == b[n].session && a[n].semester == b[n].semester && a[n].course == b[n].course
         && a[n].result.Some? == b[n].result.Some?
         && (a[n].result.Some? ==> a[n].result.value.grade == b[n].result.value.grade)
  }

  /** Pending results count exactly like approved ones: approving results changes no total. */
  lemma {:induction false} StatusDoesNotWeigh(a: seq<Row>, b: seq<Row>)
    requires SameButStatus(a, b)
    ensures Points(a) == Points(b) && Credits(a) == Credits(b)
  {
    if a != [] {
      StatusDoesNotWeigh(a[..|a| - 1], b[..|b| - 1]);
    }
  }

  /** With no negative credit unit, the points are at most five per credit. */
  lemma {:induction false} PointsWithinScale(rows: seq<Row>)
    requires forall n :: 0 <= n < |rows| ==> rows[n].course.creditUnit >= 0
    ensures 0 <= Points(rows) <= 5 * Credits(rows)
  {
    if rows != [] {
      var r := rows[|rows| - 1];
      PointsWithinScale(rows[..|rows| - 1]);
      if r.result.Some? {
        var gp := GradePoint(r.result.value.grade);
        assert 0 <= gp * r.course.creditUnit <= 5 * r.course.creditUnit by {
          assert gp * r.course.creditUnit <= 5 * r.course.creditUnit;
        }
      }
    }
  }

  /** With no negative credit unit, the CGPA lies between 0.00 and 5.00. */
  lemma CgpaWithinScale(rows: seq<Row>)
    requires forall n :: 0 <= n < |rows| ==> rows[n].course.creditUnit >= 0
    ensures 0 <= Gpa(Points(rows), Credits(rows)) <= 500
  {
    PointsWithinScale(rows);
    GpaWithinScale(Points(rows), Credits(rows));
  }

  /** A three-unit course graded A in the first semester. */
  function SampleA(): Row
  {
    Row("2023/2024", "First", CourseInfo("CSC101", "Intro", 3), Some(ResultInfo(7500, "A", Approved, None)))
  }

  /** A one-unit course graded E, still pending, in the second semester. */
  function SampleE(): Row
  {
    Row("2023/2024", "Second", CourseInfo("CSC102", "Lab", 1), Some(ResultInfo(4200, "E", Pending, None)))
  }

  /** In the sample, each semester holds one of the two courses. */
  lemma SampleGroups()
    ensures Terms([SampleA(), SampleE()]) == [TermOf(SampleA()), TermOf(SampleE())]
    ensures Select([SampleA(), SampleE()], TermOf(SampleA())) == [SampleA()]
    ensures Select([SampleA(), SampleE()], TermOf(SampleE())) == [SampleE()]
  {
    var a, e := SampleA(), SampleE();
    assert [a, e][..1] == [a] && [a][..0] == [];
    assert TermOf(a) != TermOf(e);
    assert Terms([a]) == [TermOf(a)];
    assert Select([a], TermOf(a)) == [a];
    assert Select([a], TermOf(e)) == [];
  }

  /** The sample's weighted points and credits. */
  lemma SampleTotals()
    ensures Points([SampleA()]) == 15 && Credits([SampleA()]) == 3
    ensures Points([SampleE()]) == 1 && Credits([SampleE()]) == 1
    ensures Points([SampleA(), SampleE()]) == 16 && Credits([SampleA(), SampleE()]) == 4
  {
    var a, e := SampleA(), SampleE();
    assert [a][..0] == [] && [e][..0] == [] && [a, e][..1] == [a];
  }

  /** The CGPA weighs by credits, it is not the mean of the term GPAs: an A on a 3-unit
      course in one term and an E on a 1-unit course in another give GPAs 5.00 and 1.00
      but a CGPA of 4.00. */
  lemma CgpaIsNotMeanOfGpas()
    ensures var rows := [SampleA(), SampleE()];
            && Terms(rows) == [TermOf(SampleA()), TermOf(SampleE())]
            && GroupOf(Select(rows, TermOf(SampleA()))).gpa == 500
            && GroupOf(Select(rows, TermOf(SampleE()))).gpa == 100
            && Gpa(Points(rows), Credits(rows)) == 400
  {
    SampleGroups();
    SampleTotals();
  }

  // ---------------------------------------------------------------------------
  // The string key of the source

  /** The dictionary key the views build: `f"{session} - {semester}"`. */
  function KeyString(t: Term): string
  {
    t.session + " - " + t.semester
  }

  /** With the declared semester choices, the string key identifies the pair, so grouping by
      the pair is grouping by the string. */
  lemma KeyStringInjective(t: Term, u: Term)
    requires t.semester in SemesterChoices && u.semester in SemesterChoices
    requires KeyString(t) == KeyString(u)
    ensures t == u
  {
    var a, b := KeyString(t), KeyString(u);
    assert a[|a| - 1] == t.semester[|t.semester| - 1];
    assert b[|b| - 1] == u.semester[|u.semester| - 1];
    assert t.semester == u.semester;
    assert |t.session| == |u.session|;
    assert t.session == a[..|t.session|];
    assert u.session == b[..|u.session|];
  }

  /** Outside the choices the string key can merge two terms. */
  lemma KeyStringCollides()
    ensures KeyString(Term("2024 - First", "X")) == KeyString(Term("2024", "First - X"))
    ensures Term("2024 - First", "X") != Term("2024", "First - X")
  {
  }
}
