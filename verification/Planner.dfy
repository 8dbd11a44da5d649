/** One planning run: collect, scope, size, schedule, number, assemble, and store the result. */
module Planner {
  import opened Prelude
  import opened Text
  import opened Effort
  import opened OpenDay
  import opened Sessions
  import opened Completion
  import opened Numbering
  import opened Assembly
  import opened Candidates

  /** Semester data; a sessions-per-day of 0 stands for an absent one. */
  datatype Semester = Semester(start: Option<int>, end: Option<int>, perDay: int)

  /** What the planning model returned; empty when there is no usable model. */
  datatype Design = Design(sessions: seq<Proposal>, excluded: seq<string>, horizon: Option<int>, perDay: int)

  const NO_DESIGN := Design([], [], None, 0)

  // ---- Priority ----

  function Weight(reason: Reason): real {
    match reason
    case AssessmentPrep => 1.0
    case MasteryGap => 0.9
    case RemainingTask => 0.8
    case MaterialNotCompleted => 0.5
  }

  function Urgency(deadline: Option<int>, today: int): real {
    if deadline.Some? then 1.0 / (1.0 + Max(0, deadline.value - today) as real / 7.0) else 0.2
  }

  function Gap(mastery: Option<real>): real { if mastery.Some? then 1.0 - mastery.value else 0.4 }

  function PriorityScore(c: Candidate, today: int): real {
    Round((3.0 * Urgency(c.deadline, today) + 2.0 * Gap(c.mastery) + Weight(c.reason)) * 10000.0) as real / 10000.0
  }

  lemma CancelPositive(a: real, b: real, y: real)
    requires y > 0.0 && a * y >= b * y
    ensures a >= b
  {}

  lemma ReciprocalFalls(x: real, y: real)
    requires 0.0 < x <= y
    ensures 1.0 / x >= 1.0 / y
  {
    var a, b := 1.0 / x, 1.0 / y;
    assert a > 0.0 && a * x == 1.0 && b * y == 1.0;
    ProductNonNegative(a, y - x);
    CancelPositive(a, b, y);
  }

  /** An earlier deadline is no less urgent, an overdue one counts as due today, and having a deadline at all is worth
      as much as four weeks' notice. */
  lemma UrgencyFalls(a: Option<int>, b: Option<int>, today: int)
    requires a.Some? && (b.Some? ==> a.value <= b.value || a.value <= today)
    ensures b.Some? ==> Urgency(a, today) >= Urgency(b, today)
    ensures b.None? && a.value - today <= 28 ==> Urgency(a, today) >= Urgency(b, today)
    ensures b.None? && a.value - today >= 28 ==> Urgency(a, today) <= Urgency(b, today)
  {
    var x := 1.0 + Max(0, a.value - today) as real / 7.0;
    if b.Some? {
      ReciprocalFalls(x, 1.0 + Max(0, b.value - today) as real / 7.0);
    } else if a.value - today <= 28 {
      ReciprocalFalls(x, 5.0);
    }
    if b.None? && a.value - today >= 28 { ReciprocalFalls(5.0, x); }
  }

  /** What makes work more pressing never lowers its priority: an earlier deadline, or one within four weeks instead of
      none; a weaker topic; a weightier reason. */
  lemma PriorityRises(a: Candidate, b: Candidate, today: int)
    requires Urgency(a.deadline, today) >= Urgency(b.deadline, today)
    requires a.mastery == b.mastery || (a.mastery.Some? && b.mastery.Some? && a.mastery.value <= b.mastery.value)
    requires a.reason == b.reason || b.reason.MaterialNotCompleted? || a.reason.AssessmentPrep? ||
             (a.reason.MasteryGap? && b.reason.RemainingTask?)
    ensures PriorityScore(a, today) >= PriorityScore(b, today)
    ensures a.reason != b.reason ==> PriorityScore(a, today) > PriorityScore(b, today)
  {
    var x := (3.0 * Urgency(a.deadline, today) + 2.0 * Gap(a.mastery) + Weight(a.reason)) * 10000.0;
    var y := (3.0 * Urgency(b.deadline, today) + 2.0 * Gap(b.mastery) + Weight(b.reason)) * 10000.0;
    RoundMonotone(y, x);
    if a.reason != b.reason { assert x >= y + 1000.0; }
  }

  /** An untested topic counts as one known to three fifths. */
  lemma UntestedGap(c: Candidate, today: int)
    ensures PriorityScore(c.(mastery := None), today) == PriorityScore(c.(mastery := Some(0.6)), today)
  {}

  function Scored(candidates: seq<Candidate>, today: int): seq<Candidate> {
    seq(|candidates|, i requires 0 <= i < |candidates| =>
      candidates[i].(priority := PriorityScore(candidates[i], today)))
  }

  // ---- Scope ----

  function Without(candidates: seq<Candidate>, excluded: seq<string>): seq<Candidate> {
    if |candidates| == 0 then []
    else
      var rest := Without(candidates[1..], excluded);
      if candidates[0].id in excluded then rest else [candidates[0]] + rest
  }

  /** Excluding everything is never a usable plan, so such a scope is ignored. */
  function InScope(candidates: seq<Candidate>, excluded: seq<string>): seq<Candidate> {
    var kept := Without(candidates, excluded);
    if |kept| == 0 then candidates else kept
  }

  lemma {:induction false} WithoutKeeps(candidates: seq<Candidate>, excluded: seq<string>)
    ensures forall c | c in Without(candidates, excluded) :: c in candidates && c.id !in excluded
    ensures DistinctIds(candidates) ==> DistinctIds(Without(candidates, excluded))
  {
    if |candidates| == 0 {
    } else {
      WithoutKeeps(candidates[1..], excluded);
      var rest := Without(candidates[1..], excluded);
      if DistinctIds(candidates) && candidates[0].id !in excluded {
        var kept := [candidates[0]] + rest;
        forall i, j | 0 <= i < j < |kept| ensures kept[i].id != kept[j].id {
          if i == 0 {
            assert kept[j] in rest;
            var k :| 1 <= k < |candidates| && candidates[k] == kept[j];
          }
        }
      }
    }
  }

  /** The candidates of a list that are not excluded, in the order of the list: `at` gives their positions. */
  ghost predicate Left(at: seq<nat>, kept: seq<Candidate>, candidates: seq<Candidate>, excluded: seq<string>) {
    |at| == |kept| && (forall j, k | 0 <= j < k < |at| :: at[j] < at[k]) &&
    (forall k | 0 <= k < |at| :: at[k] < |candidates| && kept[k] == candidates[at[k]]) &&
    forall c :: c in kept <==> c in candidates && c.id !in excluded
  }

  lemma {:induction false} WithoutPositions(candidates: seq<Candidate>, excluded: seq<string>) returns (at: seq<nat>)
    ensures var kept := Without(candidates, excluded);
            |at| == |kept| && (forall j, k | 0 <= j < k < |at| :: at[j] < at[k]) &&
            forall k | 0 <= k < |at| :: at[k] < |candidates| && kept[k] == candidates[at[k]]
  {
    at := [];
    if |candidates| > 0 {
      var rest := WithoutPositions(candidates[1..], excluded);
      at := seq(|rest|, k requires 0 <= k < |rest| => rest[k] + 1);
      if candidates[0].id !in excluded { at := [0] + at; }
    }
  }

  lemma {:induction false} WithoutHolds(candidates: seq<Candidate>, excluded: seq<string>, c: Candidate)
    ensures c in Without(candidates, excluded) <==> c in candidates && c.id !in excluded
  {
    if |candidates| > 0 {
      WithoutHolds(candidates[1..], excluded, c);
      assert candidates == [candidates[0]] + candidates[1..];
    }
  }

  lemma {:induction false} NothingLeft(candidates: seq<Candidate>, excluded: seq<string>)
    requires forall c | c in candidates :: c.id in excluded
    ensures Without(candidates, excluded) == []
  {
    if |candidates| > 0 { NothingLeft(candidates[1..], excluded); }
  }

  /** The scope is the candidates that are not excluded, in order, or all of them when none would be left. */
  lemma ScopeIsExact(candidates: seq<Candidate>, excluded: seq<string>)
    ensures if exists c | c in candidates :: c.id !in excluded
            then exists at :: Left(at, InScope(candidates, excluded), candidates, excluded)
            else InScope(candidates, excluded) == candidates
  {
    var kept := Without(candidates, excluded);
    forall c ensures c in kept <==> c in candidates && c.id !in excluded { WithoutHolds(candidates, excluded, c); }
    if c :| c in candidates && c.id !in excluded {
      assert c in kept;
      var at := WithoutPositions(candidates, excluded);
      assert Left(at, InScope(candidates, excluded), candidates, excluded);
    } else {
      NothingLeft(candidates, excluded);
    }
  }

  lemma ScopedCandidates(courses: seq<Course>, end: Option<int>, today: int, excluded: seq<string>)
    ensures var cs := InScope(Scored(Collected(courses, end), today), excluded);
            DistinctIds(cs) && forall c | c in cs :: c.course < |courses|
  {
    CollectedIdsDistinct(courses, end);
    WithoutKeeps(Scored(Collected(courses, end), today), excluded);
  }

  // ---- The window ----

  function StartDate(s: Semester, today: int): int { if s.start.Some? then s.start.value else today }

  function EndDate(s: Semester, today: int): Option<int> {
    if s.end.Some? && s.end.value < StartDate(s, today) then Some(StartDate(s, today)) else s.end
  }

  function ScheduleStart(s: Semester, today: int): int { Max(today, StartDate(s, today)) }

  /** The finish date the plan must respect: an upcoming horizon, cut by the end of the semester. */
  function WindowEnd(s: Semester, today: int, horizon: Option<int>): Option<int> {
    var end := EndDate(s, today);
    if horizon.None? || horizon.value < ScheduleStart(s, today) then end
    else if end.Some? then Some(Min(horizon.value, end.value)) else horizon
  }

  function SemesterCapacity(s: Semester): int { Clamp(1, if s.perDay == 0 then 2 else s.perDay, 6) }

  function Efforts(candidates: seq<Candidate>): seq<int> {
    seq(|candidates|, i requires 0 <= i < |candidates| => candidates[i].effort)
  }

  /** Where and how densely a plan may place its sessions. The load is sized by the horizon as the design gave it. */
  function WindowOf(semester: Semester, today: int, design: Design, scope: seq<Candidate>): Window {
    var start, end := ScheduleStart(semester, today), WindowEnd(semester, today, design.horizon);
    Window(start, end, DailyLoad(SemesterCapacity(semester), design.perDay, design.horizon, Efforts(scope), start, end))
  }

  /** The window starts today or with the semester, whichever is later. It ends with the semester, or on a horizon that
      is neither past nor later; only without both is it open. The load asked for is the design's, else the semester's
      between 1 and 6, else 2. */
  lemma WindowIsClear(semester: Semester, today: int, design: Design, scope: seq<Candidate>)
    ensures var w := WindowOf(semester, today, design, scope);
            var upcoming := design.horizon.Some? && w.start <= design.horizon.value;
            var begins := if semester.start.Some? then semester.start.value else today;
            w.start >= today && w.start >= begins && w.start in {today, begins} &&
            (w.end.Some? <==> upcoming || semester.end.Some?) &&
            (w.end.Some? ==>
               (upcoming ==> w.end.value <= design.horizon.value) &&
               (semester.end.Some? ==> w.end.value <= Max(begins, semester.end.value)) &&
               ((upcoming && w.end == design.horizon) ||
                (semester.end.Some? && w.end.value == Max(begins, semester.end.value))))
    ensures var asked := AskedLoad(SemesterCapacity(semester), design.perDay);
            (design.perDay > 0 ==> asked == design.perDay) &&
            (design.perDay <= 0 && semester.perDay == 0 ==> asked == 2) &&
            (design.perDay <= 0 && 1 <= semester.perDay <= 6 ==> asked == semester.perDay) &&
            (design.perDay <= 0 ==> 1 <= asked <= 6)
  {}

  /** A horizon the plan discards as past raises the load exactly when it still precedes the end of the semester, the
      asked load leaves room to rise, and the work does not fit it. */
  lemma DiscardedHorizonRaisesLoadIff(semester: Semester, today: int, design: Design, scope: seq<Candidate>)
    requires design.horizon.Some? && design.horizon.value < ScheduleStart(semester, today)
    ensures var w, plain := WindowOf(semester, today, design, scope),
                            WindowOf(semester, today, design.(horizon := None), scope);
            var asked := AskedLoad(SemesterCapacity(semester), design.perDay);
            w.start == plain.start && w.end == plain.end == EndDate(semester, today) &&
            w.capacity >= plain.capacity == Min(asked, 8) &&
            (w.capacity > plain.capacity <==>
               HorizonBinds(design.horizon, w.end) && asked < 8 &&
               TotalEffort(Efforts(scope)) > asked * WindowDays(w.start, w.end.value))
  {
    HorizonRaisesIff(SemesterCapacity(semester), design.perDay, design.horizon, Efforts(scope),
                     ScheduleStart(semester, today), EndDate(semester, today));
  }

  // ---- Storing the plan ----

  function PlanTasks(tasks: seq<Task>): seq<PlanTask> {
    seq(|tasks|, i requires 0 <= i < |tasks| => PlanTask(tasks[i].title, tasks[i].description, Some(tasks[i].day)))
  }

  /** Each course's plan is replaced by the tasks scheduled for it; finished work stays recorded. */
  function PlannedCourses(courses: seq<Course>, candidates: seq<Candidate>, sessions: seq<Session>): seq<Course> {
    seq(|courses|, i requires 0 <= i < |courses| =>
      courses[i].(completedTasks := FinishedWork(courses[i]),
                  remaining := PlanTasks(Tasks(AssembleOrder(Renumbered(sessions)), ById(candidates), i))))
  }

  /** Everything finished so far, as the stored plan lists it. */
  function FinishedWork(course: Course): seq<string> { course.completedTasks + course.completedTopics }

  /** What is finished stays finished, and a run finishes nothing else; the stored plan lists all of it as completed. */
  lemma FinishedStays(courses: seq<Course>, candidates: seq<Candidate>, sessions: seq<Session>, i: nat, title: string)
    requires i < |courses|
    ensures IsCompleted(title, Done(PlannedCourses(courses, candidates, sessions)[i])) <==>
            IsCompleted(title, Done(courses[i]))
    ensures forall x :: x in PlannedCourses(courses, candidates, sessions)[i].completedTasks <==>
                        x in courses[i].completedTasks || x in courses[i].completedTopics
  {
    var was, done := Done(courses[i]), Done(PlannedCourses(courses, candidates, sessions)[i]);
    forall x ensures x in done <==> x in was {
      assert x in done <==> x in courses[i].completedTopics || x in courses[i].completedTasks;
    }
    if k :| 0 <= k < |was| && Fold(BaseTitle(was[k])) == Fold(BaseTitle(title)) {
      assert was[k] in done;
      var j :| 0 <= j < |done| && done[j] == was[k];
    }
    if k :| 0 <= k < |done| && Fold(BaseTitle(done[k])) == Fold(BaseTitle(title)) {
      assert done[k] in was;
      var j :| 0 <= j < |was| && was[j] == done[k];
    }
  }

  /** The window and daily load of a plan. */
  method PlanWindow(semester: Semester, today: int, design: Design, scope: seq<Candidate>) returns (w: Window)
    ensures w == WindowOf(semester, today, design, scope)
    ensures today <= w.start && w.end == WindowEnd(semester, today, design.horizon) && 1 <= w.capacity <= 8
    ensures HorizonBinds(design.horizon, w.end) ==>
              w.capacity == 8 || w.capacity * WindowDays(w.start, w.end.value) >= TotalEffort(Efforts(scope))
    ensures !HorizonBinds(design.horizon, w.end) ==>
              w.capacity == Clamp(1, AskedLoad(SemesterCapacity(semester), design.perDay), 8)
    ensures w.capacity > AskedLoad(SemesterCapacity(semester), design.perDay) ==>
              HorizonBinds(design.horizon, w.end) &&
              (w.capacity - 1) * WindowDays(w.start, w.end.value) < TotalEffort(Efforts(scope))
  {
    var start, end := ScheduleStart(semester, today), WindowEnd(semester, today, design.horizon);
    var load := DesignCapacity(SemesterCapacity(semester), design.perDay, design.horizon, Efforts(scope), start, end);
    w := Window(start, end, load);
  }

  method StorePlans(courses: seq<Course>, scheduled: seq<seq<Task>>) returns (updated: seq<Course>)
    requires |scheduled| == |courses|
    ensures updated == seq(|courses|, i requires 0 <= i < |courses| =>
                         courses[i].(completedTasks := FinishedWork(courses[i]), remaining := PlanTasks(scheduled[i])))
  {
    updated := [];
    for i := 0 to |courses|
      invariant |updated| == i
      invariant forall k | 0 <= k < i ::
                  updated[k] == courses[k].(completedTasks := FinishedWork(courses[k]),
                                            remaining := PlanTasks(scheduled[k]))
    {
      var course := courses[i].(completedTasks := FinishedWork(courses[i]), remaining := PlanTasks(scheduled[i]));
      updated := updated + [course];
    }
  }

  /** The sessions, numbered, and their three views. */
  method PlanSessions(courses: nat, scope: seq<Candidate>, assessed: seq<Assessment>, w: Window,
                      proposals: seq<Proposal>)
    returns (scheduled: seq<seq<Task>>, rows: seq<Row>, items: seq<Item>, fromModel: bool)
    requires DistinctIds(scope) && forall c | c in scope :: c.course < courses
    ensures var order := AssembleOrder(Renumbered(Designed(proposals, scope, w)));
            |scheduled| == courses && (forall i | 0 <= i < courses :: scheduled[i] == Tasks(order, ById(scope), i)) &&
            rows == Rows(order, ById(scope)) && items == Items(order, ById(scope)) + AssessmentItems(assessed)
    ensures PlannedWork(proposals, scope) <= SafeSessions(w) ==>
              forall day :: ItemsOn(items, day) <= w.capacity + DatedOn(assessed, day)
  {
    var sessions, model := DesignSessions(proposals, scope, w);
    fromModel := model;
    var numbered := RenumberList(sessions);
    var tasks, view, calendar := Assemble(numbered, scope, assessed, courses);
    scheduled, rows, items := tasks, view, calendar;
    PlanFitsCalendar(proposals, scope, w, assessed);
  }

  method Plan(courses: seq<Course>, today: int, semester: Semester, design: Design)
    returns (updated: seq<Course>, rows: seq<Row>, items: seq<Item>, scope: seq<Candidate>, w: Window, fromModel: bool)
    ensures scope == InScope(Scored(Collected(courses, EndDate(semester, today)), today), design.excluded)
    ensures w == WindowOf(semester, today, design, scope) && today <= w.start && 1 <= w.capacity <= 8
    ensures HorizonBinds(design.horizon, w.end) ==>
              w.capacity == 8 || w.capacity * WindowDays(w.start, w.end.value) >= TotalEffort(Efforts(scope))
    ensures updated == PlannedCourses(courses, scope, Designed(design.sessions, scope, w))
    ensures var order := AssembleOrder(Renumbered(Designed(design.sessions, scope, w)));
            rows == Rows(order, ById(scope)) &&
            items == Items(order, ById(scope)) + AssessmentItems(AllAssessments(courses))
    ensures PlannedWork(design.sessions, scope) <= SafeSessions(w) ==>
              forall day :: ItemsOn(items, day) <= w.capacity + DatedOn(AllAssessments(courses), day)
  {
    var candidates, assessed := CollectCandidates(courses, EndDate(semester, today));
    scope := InScope(Scored(candidates, today), design.excluded);
    ScopedCandidates(courses, EndDate(semester, today), today, design.excluded);
    w := PlanWindow(semester, today, design, scope);
    var scheduled, view, calendar, model := PlanSessions(|courses|, scope, assessed, w, design.sessions);
    rows, items, fromModel := view, calendar, model;
    updated := StorePlans(courses, scheduled);
  }

  /** The list form of renumbering: the sessions are rewritten where they are stored. */
  method RenumberList(sessions: seq<Session>) returns (numbered: seq<Session>)
    ensures numbered == Renumbered(sessions)
  {
    var a := new Session[|sessions|](i requires 0 <= i < |sessions| => sessions[i]);
    assert a[..] == sessions;
    Renumber(a);
    numbered := a[..];
  }

  lemma {:induction false} HeldOfMember(s: seq<Session>, k: nat)
    requires k < |s|
    ensures Held(s, s[k].candidate) > 0
  {
    if k < |s| - 1 {
      HeldOfMember(s[..|s| - 1], k);
    }
  }

  lemma DesignedAllKnown(ps: seq<Proposal>, candidates: seq<Candidate>, w: Window)
    requires DistinctIds(candidates)
    ensures AllKnown(Designed(ps, candidates, w), ById(candidates))
    ensures AllKnown(Renumbered(Designed(ps, candidates, w)), ById(candidates))
  {
    PlanDepthIsExact(ps, candidates, w);
    var out := Designed(ps, candidates, w);
    forall k | 0 <= k < |out| ensures out[k].candidate in ById(candidates) { HeldOfMember(out, k); }
  }

  /** A calendar day never carries more than the daily limit plus the assessments dated on it. */
  lemma PlanFitsCalendar(ps: seq<Proposal>, candidates: seq<Candidate>, w: Window, assessments: seq<Assessment>)
    requires DistinctIds(candidates)
    ensures var r := Renumbered(Designed(ps, candidates, w));
            PlannedWork(ps, candidates) <= SafeSessions(w) ==>
            forall day :: ItemsOn(Items(AssembleOrder(r), ById(candidates)) + AssessmentItems(assessments), day)
                          <= w.capacity + DatedOn(assessments, day)
  {
    var out := Designed(ps, candidates, w);
    var r := Renumbered(out);
    DesignedAllKnown(ps, candidates, w);
    PlannedWorkFits(ps, candidates, w);
    if PlannedWork(ps, candidates) <= SafeSessions(w) {
      forall day ensures ItemsOn(Items(AssembleOrder(r), ById(candidates)) + AssessmentItems(assessments), day)
                         <= w.capacity + DatedOn(assessments, day)
      {
        CalendarLoad(r, candidates, assessments, day);
        RenumberedKeepsCounts(r, out, "", day);
        assert On(Tally(out), day) <= w.capacity;
      }
    }
  }
}
