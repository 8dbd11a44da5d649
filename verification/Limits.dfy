/** What the daily limit and the finish date are worth: exact conditions, and whole plans that break them. */
module Limits {
  import opened Prelude
  import opened Text
  import opened Effort
  import opened OpenDay
  import opened Sessions
  import opened RuleScheduler
  import opened Aims
  import opened Validator
  import opened Completion
  import opened Candidates
  import opened Planner
  import opened Replan
  import opened ReplanLaws
  import opened ReplanGrowth

  // ---- Missing the finish date while a day has room ----

  /** Only the candidate's first session aims at the first day. */
  predicate LeavesFirstDay(c: Candidate, w: Window) {
    forall i | 1 <= i < Total(c) :: Target(c, w, i) > w.start
  }

  lemma {:induction false} SpreadOnFirstDay(placed: seq<Session>, c: Candidate, w: Window, k: nat)
    requires LeavesFirstDay(c, w) && k <= Total(c)
    ensures On(Tally(Spread(placed, c, w, k)), w.start) <= On(Tally(placed), w.start) + if k == 0 then 0 else 1
  {
    if k > 0 {
      var out := Spread(placed, c, w, k - 1);
      var day := Place(out, w, Target(c, w, k - 1), c.deadline);
      SpreadOnFirstDay(placed, c, w, k - 1);
      NextOpenSkipsFullDays(Tally(out), Target(c, w, k - 1), c.deadline, w.end, w.capacity);
      Snoc(out, Session(c.id, day, k, Total(c), ""));
    }
  }

  lemma {:induction false} SpreadAllOnFirstDay(ordered: seq<Candidate>, w: Window)
    requires forall c | c in ordered :: LeavesFirstDay(c, w)
    ensures On(Tally(SpreadAll(ordered, w)), w.start) <= |ordered|
  {
    if |ordered| > 0 {
      var n := |ordered| - 1;
      SpreadAllOnFirstDay(ordered[..n], w);
      SpreadOnFirstDay(SpreadAll(ordered[..n], w), ordered[n], w, Total(ordered[n]));
    }
  }

  lemma {:induction false} LaterAims(c: Candidate, w: Window, k: nat)
    requires LeavesFirstDay(c, w) && k <= Total(c)
    ensures From(AimsOf(c, w, k), w.start + 1) == if k == 0 then 0 else k - 1
  {
    if k > 0 {
      var front, a := AimsOf(c, w, k - 1), Aim(Target(c, w, k - 1), c.deadline);
      LaterAims(c, w, k - 1);
      CountSnoc((a: Aim) => a.day >= w.start + 1, front, a);
      if k == 1 { assert RoundQuotient(0, Total(c)) == 0 && 0 * Span(c, w) == 0; }
    }
  }

  /** Each candidate leaves one session to the first day; the rest of the work aims past it. */
  lemma {:induction false} WorkPastFirstDay(candidates: seq<Candidate>, w: Window)
    requires forall c | c in candidates :: LeavesFirstDay(c, w)
    ensures WorkFrom(candidates, w, w.start + 1) + |candidates| == Work(candidates)
  {
    if |candidates| > 0 {
      WorkPastFirstDay(candidates[1..], w);
      LaterAims(candidates[0], w, Total(candidates[0]));
    }
  }

  lemma RuleOnFirstDay(candidates: seq<Candidate>, w: Window)
    requires forall c | c in candidates :: LeavesFirstDay(c, w)
    ensures On(Tally(Rule(candidates, w)), w.start) <= |candidates|
  {
    var ordered := RuleOrder(candidates, w);
    SortPermutes((a, b) => RuleBefore(w.end, a, b), candidates);
    forall c | c in ordered ensures LeavesFirstDay(c, w) {
      assert c in multiset(ordered);
      assert c in multiset(candidates);
    }
    SpreadAllOnFirstDay(ordered, w);
  }

  lemma OneDayLess(capacity: nat, days: nat)
    ensures capacity * (days + 1) == capacity * days + capacity
  {}

  /** Fewer candidates than sessions a day, none returning to the first day, and work that fills the window: the plan
      misses its finish date although its first day has room. */
  lemma SparseStartMissesFinish(candidates: seq<Candidate>, w: Window)
    requires w.end.Some? && w.start <= w.end.value && |candidates| < w.capacity
    requires forall c | c in candidates :: LeavesFirstDay(c, w)
    requires Work(candidates) >= w.capacity * (w.end.value - w.start + 1)
    ensures HasRoom(Tally(Rule(candidates, w)), w.capacity, w.start) && !Finishes(Rule(candidates, w), w)
  {
    RuleOnFirstDay(candidates, w);
    WorkPastFirstDay(candidates, w);
    RuleFinishesIff(candidates, w);
    OneDayLess(w.capacity, w.end.value - w.start);
    assert WorkFrom(candidates, w, w.start + 1) > w.capacity * (w.end.value - (w.start + 1) + 1);
  }

  // ---- Courses of one document each ----

  function OneDocumentEach(n: nat, m: Material): seq<Course> { seq(n, i => LoneDocument(m)) }

  lemma OwnDraft(m: Material, end: Option<int>)
    ensures var draft := StudyDraft(m, LoneDocument(m), end);
            draft.effort == EffortUnits(m.length, None) && draft.deadline == end
  {
    Unrated(LoneDocument(m), Fold(Strip(Strip(m.title))));
  }

  lemma NextCourse(n: nat, m: Material, end: Option<int>)
    ensures var last, front := LoneDocument(m), Collected(OneDocumentEach(n, m), end);
            Collected(OneDocumentEach(n + 1, m), end) ==
            front + StampAll(Drafts(last, "Course", end), |front|, n, "Course")
  {
    var last := LoneDocument(m);
    assert OneDocumentEach(n + 1, m) == OneDocumentEach(n, m) + [last];
    CollectedSnoc(OneDocumentEach(n, m), last, end);
    assert CourseName(last, n) == "Course";
  }

  lemma StampOne(draft: Draft, offset: nat, course: nat, name: string)
    ensures StampAll([draft], offset, course, name) == [Stamp(draft, offset, course, name)]
  {}

  /** One more course means one more candidate: its document, sized by its pages, due at the end of the semester. */
  lemma NextDocument(n: nat, m: Material, end: Option<int>) returns (document: Candidate)
    ensures Collected(OneDocumentEach(n + 1, m), end) == Collected(OneDocumentEach(n, m), end) + [document]
    ensures document.effort == EffortUnits(m.length, None) && document.deadline == end
  {
    var draft, offset := StudyDraft(m, LoneDocument(m), end), |Collected(OneDocumentEach(n, m), end)|;
    document := Stamp(draft, offset, n, "Course");
    NextCourse(n, m, end);
    LoneDocumentDrafts(m, end);
    StampOne(draft, offset, n, "Course");
    OwnDraft(m, end);
  }

  /** Candidates alike in effort and deadline. */
  ghost predicate Alike(cs: seq<Candidate>, effort: int, deadline: Option<int>) {
    forall k | 0 <= k < |cs| :: cs[k].effort == effort && cs[k].deadline == deadline
  }

  lemma AlikeSnoc(cs: seq<Candidate>, x: Candidate, effort: int, deadline: Option<int>)
    requires Alike(cs, effort, deadline) && x.effort == effort && x.deadline == deadline
    ensures |cs + [x]| == |cs| + 1 && Alike(cs + [x], effort, deadline)
  {}

  lemma {:induction false} DocumentsCollected(n: nat, m: Material, end: Option<int>)
    ensures |Collected(OneDocumentEach(n, m), end)| == n
    ensures Alike(Collected(OneDocumentEach(n, m), end), EffortUnits(m.length, None), end)
  {
    if n == 0 {
      assert OneDocumentEach(0, m) == [];
    } else {
      var front := Collected(OneDocumentEach(n - 1, m), end);
      DocumentsCollected(n - 1, m, end);
      var document := NextDocument(n - 1, m, end);
      AlikeSnoc(front, document, EffortUnits(m.length, None), end);
    }
  }

  /** Scoring and an empty list of exclusions leave the collected candidates as they are, priorities aside. */
  lemma NothingExcludedScope(courses: seq<Course>, end: Option<int>, today: int)
    ensures var cs := Collected(courses, end);
            var scope := InScope(Scored(cs, today), []);
            |scope| == |cs| && DistinctIds(scope) &&
            forall k | 0 <= k < |cs| ::
              scope[k].id == CandidateId(k) && scope[k].effort == cs[k].effort && scope[k].deadline == cs[k].deadline
  {
    var cs := Collected(courses, end);
    var scored := Scored(cs, today);
    NothingExcluded(scored);
    ScopedCandidates(courses, end, today, []);
    assert InScope(scored, []) == scored;
    forall k | 0 <= k < |cs| ensures cs[k].id == CandidateId(k) { CollectedPositions(courses, end, k); }
  }

  lemma {:induction false} EqualWork(cs: seq<Candidate>, effort: nat)
    requires effort > 0 && forall k | 0 <= k < |cs| :: cs[k].effort == effort
    ensures Work(cs) == TotalEffort(Efforts(cs)) == |cs| * effort
  {
    if |cs| > 0 {
      var n := |cs| - 1;
      EqualWork(cs[..n], effort);
      SumSnoc((c: Candidate) => Total(c), cs[..n], cs[n]);
      assert cs == cs[..n] + [cs[n]];
      assert Efforts(cs)[..n] == Efforts(cs[..n]);
      assert |cs| * effort == n * effort + effort;
    }
  }

  // ---- A plan that misses the date it was sized for ----

  /** Five sessions spread over four days: only the first aims at the first day. */
  lemma FiveOverFour(c: Candidate, w: Window)
    requires Total(c) == 5 && Span(c, w) == 3
    ensures LeavesFirstDay(c, w)
  {
    forall i | 1 <= i < 5 ensures Target(c, w, i) > w.start {
      RoundQuotientMonotone(3, i * 3, 5);
      assert RoundQuotient(3, 5) == 1;
    }
  }

  lemma FivesMissFinish(scope: seq<Candidate>, w: Window)
    requires |scope| == 4 && Work(scope) == 20 && w == Window(w.start, Some(w.start + 3), 5)
    requires forall k | 0 <= k < 4 :: scope[k].effort == 5 && scope[k].deadline == w.end
    ensures HasRoom(Tally(Rule(scope, w)), 5, w.start) && !Finishes(Rule(scope, w), w)
  {
    forall c | c in scope ensures LeavesFirstDay(c, w) { FiveOverFour(c, w); }
    SparseStartMissesFinish(scope, w);
  }

  /** What the examples share: the scope of `n` one-document courses with nothing excluded. */
  lemma DocumentScope(n: nat, m: Material, semester: Semester, today: int)
    ensures var end := EndDate(semester, today);
            var scope := InScope(Scored(Collected(OneDocumentEach(n, m), end), today), []);
            var effort := EffortUnits(m.length, None);
            |scope| == n && DistinctIds(scope) && Work(scope) == TotalEffort(Efforts(scope)) == n * effort &&
            forall k | 0 <= k < n ::
              scope[k].id == CandidateId(k) && scope[k].effort == effort && scope[k].deadline == end
  {
    var end := EndDate(semester, today);
    DocumentsCollected(n, m, end);
    NothingExcludedScope(OneDocumentEach(n, m), end, today);
    EffortInRange(m.length, None);
    EqualWork(InScope(Scored(Collected(OneDocumentEach(n, m), end), today), []), EffortUnits(m.length, None));
  }

  lemma NothingDesigned(candidates: seq<Candidate>, w: Window)
    ensures Designed([], candidates, w) == Rule(candidates, w)
  {
    assert Validate([], candidates, w) == [];
  }

  /** 4 sessions a day asked for, 20 sessions in 4 days: the load is raised to 5. */
  lemma RaisedToFive(today: int, scope: seq<Candidate>)
    requires TotalEffort(Efforts(scope)) == 20
    ensures WindowOf(Semester(None, Some(today + 3), 4), today, Design([], [], Some(today + 3), 0), scope) ==
            Window(today, Some(today + 3), 5)
  {
    assert WindowDays(today, today + 3) == 4;
    assert CeilDiv(20, 4) == 5;
  }

  /** Four pieces of work of five sessions each, due with the window. */
  lemma FivesDesigned(scope: seq<Candidate>, today: int)
    requires |scope| == 4 && Work(scope) == TotalEffort(Efforts(scope)) == 20
    requires forall k | 0 <= k < 4 :: scope[k].effort == 5 && scope[k].deadline == Some(today + 3)
    ensures var w := Window(today, Some(today + 3), 5);
            WindowOf(Semester(None, Some(today + 3), 4), today, Design([], [], Some(today + 3), 0), scope) == w &&
            HasRoom(Tally(Designed([], scope, w)), 5, today) && !Finishes(Designed([], scope, w), w)
  {
    var w := Window(today, Some(today + 3), 5);
    RaisedToFive(today, scope);
    NothingDesigned(scope, w);
    FivesMissFinish(scope, w);
  }

  lemma FourFivesMissFinish(n: nat, m: Material, today: int)
    requires n == 4 && EffortUnits(m.length, None) == 5
    ensures var semester, end := Semester(None, Some(today + 3), 4), Some(today + 3);
            var scope := InScope(Scored(Collected(OneDocumentEach(n, m), EndDate(semester, today)), today), []);
            var w := Window(today, end, 5);
            var out := Designed([], scope, w);
            WindowOf(semester, today, Design([], [], end, 0), scope) == w && Work(scope) == 5 * 4 &&
            HasRoom(Tally(out), 5, today) && !Finishes(out, w)
  {
    var semester := Semester(None, Some(today + 3), 4);
    DocumentScope(n, m, semester, today);
    FivesDesigned(InScope(Scored(Collected(OneDocumentEach(n, m), EndDate(semester, today)), today), []), today);
  }

  /** Four documents of 60 pages, to be finished in four days: the load is raised to exactly what fits, 5 a day, and the
      plan still runs past the finish date while its first day has room. */
  lemma SizedPlanMissesFinish(today: int)
    ensures var semester := Semester(None, Some(today + 3), 4);
            var design := Design([], [], Some(today + 3), 0);
            var courses := OneDocumentEach(4, Material("Notes", Some(60)));
            var scope := InScope(Scored(Collected(courses, EndDate(semester, today)), today), design.excluded);
            var w := Window(today, Some(today + 3), 5);
            var out := Designed(design.sessions, scope, w);
            WindowOf(semester, today, design, scope) == w && Work(scope) == 5 * 4 &&
            HasRoom(Tally(out), 5, today) && !Finishes(out, w)
  {
    assert EffortUnits(Some(60), None) == 5;
    FourFivesMissFinish(4, Material("Notes", Some(60)), today);
  }

  // ---- A carried-over task that breaks the daily limit ----

  /** A title without a closing bracket carries no session suffix. */
  lemma PlainTitle(title: string)
    requires Strip(title) == title && (|title| > 0 ==> title[|title| - 1] != ')')
    ensures Clean(title)
  {
    StripFixedRight(title);
  }

  lemma StripFixedRight(title: string)
    requires Strip(title) == title
    ensures StripRight(title) == title
  {
    if |title| > 0 {
      StripRightProps(StripLeft(title));
      assert !IsSpace(title[|title| - 1]);
    }
  }

  lemma {:induction false} SameTasksGroup(t: PlanTask, n: nat)
    requires BaseTitle(t.title) != ""
    ensures Groups(seq(n, i => t), []) == if n == 0 then [] else [Group(BaseTitle(t.title), n, t)]
  {
    if n > 0 {
      SameTasksGroup(t, n - 1);
      assert seq(n, i => t)[..n - 1] == seq(n - 1, i => t);
    }
  }

  /** A course whose current plan holds `n` undated sessions of one piece of work. */
  function Unfinished(n: nat): Course {
    Course("Course", [], [], [], [], [], seq(n, i => PlanTask("Study", "", None)))
  }

  lemma NothingElse(course: Course, end: Option<int>, seen: set<string>)
    requires course.deadlines == [] && course.materials == [] && course.performance == []
    ensures Fresh(course, "Course", end, seen) == []
  {
    assert Preps([], seen, course, "Course", end) == [];
    assert Studies([], seen + Titles([]), course, end) == [];
    assert Reviews([], seen + Titles([]), course, end) == [];
  }

  lemma UnfinishedDrafts(n: nat, end: Option<int>)
    requires n >= 8
    ensures var drafts := Drafts(Unfinished(n), "Course", end);
            |drafts| == 1 && drafts[0].effort == n && drafts[0].deadline == end
  {
    var course, t := Unfinished(n), PlanTask("Study", "", None);
    var g := Group("Study", n, t);
    assert course.remaining == seq(n, i => t) && Done(course) == [];
    assert Groups(course.remaining, []) == [g] by {
      StripFixed("Study");
      PlainTitle("Study");
      SameTasksGroup(t, n);
    }
    EffortInRange(LengthOfKey(course, Fold(g.title)), MasteryFor(course, g.title));
    assert Fresh(course, "Course", end, GroupKeys([g])) == [] by { NothingElse(course, end, GroupKeys([g])); }
    assert GroupDrafts([g], course, end) == [GroupDraft(g, course, end)];
  }

  lemma UnfinishedCollected(n: nat, end: Option<int>)
    requires n >= 8
    ensures var cs := Collected([Unfinished(n)], end);
            |cs| == 1 && cs[0].effort == n && cs[0].deadline == end
  {
    UnfinishedDrafts(n, end);
    LoneCollected(Unfinished(n), end);
    assert CourseName(Unfinished(n), 0) == "Course";
  }

  /** 368 sessions left over, one session a day, the semester ending today: the plan overfills a day. */
  lemma LimitCanBeExceeded(today: int)
    ensures var semester := Semester(None, Some(today), 1);
            var scope := InScope(Scored(Collected([Unfinished(368)], EndDate(semester, today)), today), []);
            var w := WindowOf(semester, today, NO_DESIGN, scope);
            w.capacity == 1 && !WithinCapacity(Designed(NO_DESIGN.sessions, scope, w), w.capacity)
  {
    var semester := Semester(None, Some(today), 1);
    var scope := InScope(Scored(Collected([Unfinished(368)], Some(today)), today), []);
    assert EndDate(semester, today) == Some(today);
    UnfinishedCollected(368, Some(today));
    NothingExcludedScope([Unfinished(368)], Some(today), today);
    EqualWork(scope, 368);
    var w := WindowOf(semester, today, NO_DESIGN, scope);
    assert w == Window(today, Some(today), 1);
    RuleLimitIsSharp(scope, w);
    NothingDesigned(scope, w);
  }

  // ---- A designed plan that breaks it ----

  /** No session lies before the window or more than 366 days past the finish date. */
  ghost predicate Bounded(out: seq<Session>, w: Window)
    requires w.end.Some?
  {
    forall k | 0 <= k < |out| :: w.start <= out[k].day <= w.end.value + 366
  }

  /** Proposals that lie inside the window are never placed beyond that. */
  lemma {:induction false} AdmittedBounded(ps: seq<Proposal>, byId: map<string, Candidate>, all: seq<Proposal>,
                                           w: Window)
    requires w.end.Some? && w.start <= w.end.value
    requires forall p | p in ps && p.day.Some? :: !Outside(p.day.value, w)
    ensures Bounded(AdmitAll(ps, byId, all, w), w)
  {
    if |ps| > 0 {
      var n := |ps| - 1;
      var p, out := ps[n], AdmitAll(ps[..n], byId, all, w);
      AdmittedBounded(ps[..n], byId, all, w);
      assert p in ps;
      if Admissible(out, p, byId, all) {
        PlaceBounded(out, w, p.day.value, byId[p.candidate].deadline);
      }
    }
  }

  lemma {:induction false} ExtendBounded(out: seq<Session>, id: string, deadline: Option<int>, wanted: int, n: nat,
                                         w: Window)
    requires w.end.Some? && w.start <= w.end.value && Bounded(out, w)
    ensures Bounded(Extend(out, id, deadline, wanted, n, w), w)
  {
    if n > 0 {
      var prev := Extend(out, id, deadline, wanted, n - 1, w);
      ExtendBounded(out, id, deadline, wanted, n - 1, w);
      PlaceBounded(prev, w, Preferred(prev, id, w), deadline);
    }
  }

  lemma {:induction false} TopUpAllBounded(ids: seq<string>, sessions: seq<Session>, byId: map<string, Candidate>,
                                           w: Window)
    requires w.end.Some? && w.start <= w.end.value && Bounded(sessions, w)
    ensures Bounded(TopUpAll(ids, sessions, byId, w), w)
  {
    if |ids| > 0 {
      var n := |ids| - 1;
      var id, prev := ids[n], TopUpAll(ids[..n], sessions, byId, w);
      TopUpAllBounded(ids[..n], sessions, byId, w);
      if id in byId {
        ExtendBounded(prev, id, byId[id].deadline, Depth(AsProposals(sessions), id), Lacking(sessions, id), w);
      }
    }
  }

  lemma {:induction false} NothingMissing(sessions: seq<Session>, candidates: seq<Candidate>)
    requires forall c | c in candidates :: Held(sessions, c.id) > 0
    ensures Missing(sessions, candidates) == []
  {
    if |candidates| > 0 { NothingMissing(sessions, candidates[1..]); }
  }

  lemma DesignBounded(ps: seq<Proposal>, candidates: seq<Candidate>, w: Window)
    requires w.end.Some? && w.start <= w.end.value
    requires forall p | p in ps && p.day.Some? :: !Outside(p.day.value, w)
    ensures Bounded(ToppedUp(Validate(ps, candidates, w), candidates, w), w)
  {
    var ordered, kept := SortBy(ProposalBefore, ps), Validate(ps, candidates, w);
    SortPermutes(ProposalBefore, ps);
    forall p | p in ordered && p.day.Some? ensures !Outside(p.day.value, w) {
      assert p in multiset(ordered);
      assert p in multiset(ps);
    }
    AdmittedBounded(ordered, ById(candidates), ps, w);
    TopUpAllBounded(SortBy(NameBefore, Names(kept)), kept, ById(candidates), w);
  }

  /** With a usable proposal for every candidate there is nothing to backfill. */
  lemma DesignCovers(ps: seq<Proposal>, candidates: seq<Candidate>, w: Window)
    requires |candidates| > 0 && forall c | c in candidates :: Usable(ps, c.id)
    ensures Designed(ps, candidates, w) == ToppedUp(Validate(ps, candidates, w), candidates, w)
    ensures |Validate(ps, candidates, w)| > 0
  {
    var kept := Validate(ps, candidates, w);
    var topped := ToppedUp(kept, candidates, w);
    TopUpReachesDepth(kept, candidates, w);
    ByIdHolds(candidates);
    forall c | c in candidates ensures Held(kept, c.id) > 0 && Held(topped, c.id) > 0 {
      var k :| 0 <= k < |candidates| && candidates[k] == c;
      assert candidates[k].id == c.id;
      assert c.id in ById(candidates);
      ValidatedIffProposed(ps, candidates, w, c.id);
    }
    assert candidates[0] in candidates;
    NothingMissing(topped, candidates);
  }

  /** A design inside the window that leaves no candidate out can honour the daily limit only for
      (D + 366) * capacity sessions or fewer. */
  lemma DesignCannotExceed(ps: seq<Proposal>, candidates: seq<Candidate>, w: Window)
    requires w.end.Some? && w.start <= w.end.value && |candidates| > 0
    requires forall p | p in ps && p.day.Some? :: !Outside(p.day.value, w)
    requires forall c | c in candidates :: Usable(ps, c.id)
    requires WithinCapacity(Designed(ps, candidates, w), w.capacity)
    ensures |Designed(ps, candidates, w)| <= w.capacity * (w.end.value - w.start + 367)
  {
    var out, days := Designed(ps, candidates, w), w.end.value - w.start + 367;
    DesignBounded(ps, candidates, w);
    DesignCovers(ps, candidates, w);
    TallyTotal(out, w.start, w.start + days);
    BoundedDaysAddUp(Tally(out), w.capacity, w.start, days);
  }

  /** One session today for each of `n` candidates, each announced as the first of eight. */
  function FirstOfEight(n: nat, today: int): seq<Proposal> {
    seq(n, i requires 0 <= i < n => Proposal(CandidateId(i), "", Some(today), 1, 8, ""))
  }

  lemma {:induction false} EightEach(ps: seq<Proposal>, candidates: seq<Candidate>)
    requires forall c | c in candidates :: Usable(ps, c.id) && Depth(ps, c.id) == 8
    ensures PlannedWork(ps, candidates) == 8 * |candidates|
  {
    if |candidates| > 0 {
      assert candidates[0] in candidates;
      EightEach(ps, candidates[1..]);
    }
  }

  lemma {:induction false} StatedEight(ps: seq<Proposal>, id: string)
    requires forall p | p in ps :: p.total == 8
    ensures Stated(ps, id) == if exists p | p in ps :: p.candidate == id then 8 else 0
  {
    if |ps| > 0 {
      var front, p := ps[..|ps| - 1], ps[|ps| - 1];
      StatedEight(front, id);
      assert ps == front + [p];
    }
  }

  lemma AskedForEight(n: nat, today: int, k: nat)
    requires k < n
    ensures Usable(FirstOfEight(n, today), CandidateId(k)) && Depth(FirstOfEight(n, today), CandidateId(k)) == 8
  {
    var ps, id := FirstOfEight(n, today), CandidateId(k);
    assert ps[k] in ps && ps[k].candidate == id;
    StatedEight(ps, id);
  }

  /** A design that asks for eight sessions of each of 46 or more documents, all today, overfills a day. */
  lemma EightEachOverfills(n: nat, scope: seq<Candidate>, today: int)
    requires n >= 46 && |scope| == n && DistinctIds(scope)
    requires forall k | 0 <= k < n :: scope[k].id == CandidateId(k)
    ensures var w := Window(today, Some(today), 1);
            |Validate(FirstOfEight(n, today), scope, w)| > 0 &&
            !WithinCapacity(Designed(FirstOfEight(n, today), scope, w), 1)
  {
    var ps, w := FirstOfEight(n, today), Window(today, Some(today), 1);
    forall c | c in scope ensures Usable(ps, c.id) && Depth(ps, c.id) == 8 {
      var k :| 0 <= k < |scope| && scope[k] == c;
      AskedForEight(n, today, k);
    }
    EightEach(ps, scope);
    PlannedWorkFits(ps, scope, w);
    DesignCovers(ps, scope, w);
    if WithinCapacity(Designed(ps, scope, w), 1) { DesignCannotExceed(ps, scope, w); }
  }

  lemma DocumentsOverfilled(n: nat, m: Material, today: int)
    requires n >= 46
    ensures var semester := Semester(None, Some(today), 1);
            var design := Design(FirstOfEight(n, today), [], None, 0);
            var scope := InScope(Scored(Collected(OneDocumentEach(n, m), EndDate(semester, today)), today), []);
            var w := WindowOf(semester, today, design, scope);
            w.capacity == 1 && |Validate(design.sessions, scope, w)| > 0 &&
            !WithinCapacity(Designed(design.sessions, scope, w), w.capacity)
  {
    var semester := Semester(None, Some(today), 1);
    var scope := InScope(Scored(Collected(OneDocumentEach(n, m), Some(today)), today), []);
    assert EndDate(semester, today) == Some(today);
    DocumentScope(n, m, semester, today);
    EightEachOverfills(n, scope, today);
    assert WindowOf(semester, today, Design(FirstOfEight(n, today), [], None, 0), scope) ==
           Window(today, Some(today), 1);
  }

  /** 46 documents, one session a day, the semester ending today, and a design that asks for eight sessions of each: 368
      sessions, every proposal legal on its own, and a day beyond the limit. */
  lemma DesignCanExceedLimit(today: int)
    ensures var semester := Semester(None, Some(today), 1);
            var design := Design(FirstOfEight(46, today), [], None, 0);
            var courses := OneDocumentEach(46, Material("Notes", None));
            var scope := InScope(Scored(Collected(courses, EndDate(semester, today)), today), design.excluded);
            var w := WindowOf(semester, today, design, scope);
            w.capacity == 1 && |Validate(design.sessions, scope, w)| > 0 &&
            !WithinCapacity(Designed(design.sessions, scope, w), w.capacity)
  {
    DocumentsOverfilled(46, Material("Notes", None), today);
  }

  // ---- A past horizon that raises the load ----

  /** One document of 13 pages, one session a day, the semester ending today, and a horizon of yesterday: the plan drops
      the horizon, yet plans two sessions a day because of it. */
  lemma PastHorizonRaisesLoad(today: int)
    ensures var semester := Semester(None, Some(today), 1);
            var courses := OneDocumentEach(1, Material("Notes", Some(13)));
            var scope := InScope(Scored(Collected(courses, EndDate(semester, today)), today), []);
            WindowOf(semester, today, Design([], [], Some(today - 1), 0), scope) == Window(today, Some(today), 2) &&
            WindowOf(semester, today, Design([], [], None, 0), scope) == Window(today, Some(today), 1)
  {
    var semester := Semester(None, Some(today), 1);
    var m := Material("Notes", Some(13));
    var courses := OneDocumentEach(1, m);
    var scope := InScope(Scored(Collected(courses, Some(today)), today), []);
    assert EndDate(semester, today) == Some(today);
    assert EffortUnits(m.length, None) == 2;
    DocumentScope(1, m, semester, today);
  }
}
