/** Planning again from the plan just stored: work is carried over, never multiplied. */
module Replan {
  import opened Prelude
  import opened Text
  import opened Sessions
  import opened RuleScheduler
  import opened Completion
  import opened Numbering
  import opened Assembly
  import opened Candidates
  import opened Planner

  /** What may differ between two planning runs: the day, the semester's end and the resulting window. */
  datatype Env = Env(today: int, end: Option<int>, w: Window)

  /** One run of the planner with the rule scheduler in charge. */
  function Step(courses: seq<Course>, env: Env): seq<Course> {
    var candidates := Scored(Collected(courses, env.end), env.today);
    PlannedCourses(courses, candidates, Rule(candidates, env.w))
  }

  /** Without a usable design the planner is exactly that step. */
  lemma EmptyDesignIsStep(courses: seq<Course>, env: Env)
    ensures var scope := InScope(Scored(Collected(courses, env.end), env.today), NO_DESIGN.excluded);
            PlannedCourses(courses, scope, Designed(NO_DESIGN.sessions, scope, env.w)) == Step(courses, env)
  {
    NothingExcluded(Scored(Collected(courses, env.end), env.today));
  }

  lemma {:induction false} NothingExcluded(candidates: seq<Candidate>)
    ensures Without(candidates, []) == candidates
  {
    if |candidates| > 0 {
      NothingExcluded(candidates[1..]);
      assert candidates == [candidates[0]] + candidates[1..];
    }
  }

  // ---- How many tasks of a stored plan belong to one piece of work ----

  function KeyOf(t: PlanTask): string { Fold(BaseTitle(t.title)) }

  /** Tasks whose folded base title is `key`. */
  function TaskCount(tasks: seq<PlanTask>, key: string): nat { Count((t: PlanTask) => KeyOf(t) == key, tasks) }

  /** The folded base title a candidate's tasks will carry: a lone session is printed without a number. */
  function WorkKey(title: string, total: nat): string {
    Fold(if total > 1 then Strip(title) else BaseTitle(title))
  }

  lemma {:induction false} CountSpread(chosen: string -> bool, placed: seq<Session>, c: Candidate, w: Window, k: nat)
    ensures Count((s: Session) => chosen(s.candidate), Spread(placed, c, w, k)) ==
            Count((s: Session) => chosen(s.candidate), placed) + if chosen(c.id) then k else 0
  {
    if k > 0 {
      CountSpread(chosen, placed, c, w, k - 1);
      var out := Spread(placed, c, w, k - 1);
      CountSnoc((s: Session) => chosen(s.candidate), out,
                Session(c.id, Place(out, w, Target(c, w, k - 1), c.deadline), k, Total(c), ""));
    }
  }

  function Share(chosen: string -> bool, c: Candidate): nat { if chosen(c.id) then Total(c) else 0 }

  function ChosenWork(chosen: string -> bool, candidates: seq<Candidate>): nat {
    Sum((c: Candidate) => Share(chosen, c), candidates)
  }

  lemma {:induction false} CountSpreadAll(chosen: string -> bool, ordered: seq<Candidate>, w: Window)
    ensures Count((s: Session) => chosen(s.candidate), SpreadAll(ordered, w)) ==
            ChosenWork(chosen, ordered)
  {
    if |ordered| > 0 {
      var n := |ordered| - 1;
      CountSpreadAll(chosen, ordered[..n], w);
      CountSpread(chosen, SpreadAll(ordered[..n], w), ordered[n], w, Total(ordered[n]));
      SumSnoc((c: Candidate) => Share(chosen, c), ordered[..n], ordered[n]);
      assert ordered == ordered[..n] + [ordered[n]];
    }
  }

  lemma {:induction false} CountRenumbered(chosen: string -> bool, s: seq<Session>, t: seq<Session>)
    requires |s| == |t| && forall i | 0 <= i < |s| :: s[i].candidate == t[i].candidate
    ensures Count((x: Session) => chosen(x.candidate), s) == Count((x: Session) => chosen(x.candidate), t)
  {
    if |s| > 0 { CountRenumbered(chosen, s[1..], t[1..]); }
  }

  /** Selected sessions of a rule schedule, counted after numbering and ordering. */
  lemma CountRule(chosen: string -> bool, candidates: seq<Candidate>, w: Window)
    ensures Count((s: Session) => chosen(s.candidate), AssembleOrder(Renumbered(Rule(candidates, w)))) ==
            ChosenWork(chosen, candidates)
  {
    var r := Renumbered(Rule(candidates, w));
    CountSort((s: Session) => chosen(s.candidate), AssembleBefore, r);
    CountRenumbered(chosen, r, Rule(candidates, w));
    CountSpreadAll(chosen, RuleOrder(candidates, w), w);
    SumSort((c: Candidate) => Share(chosen, c), (a, b) => RuleBefore(w.end, a, b), candidates);
  }

  /** Every session of the ordered, numbered rule schedule is one of its candidate's 1..n of n. */
  ghost predicate WellNumbered(s: seq<Session>, byId: map<string, Candidate>) {
    forall x | x in s :: x.candidate in byId && x.total == Total(byId[x.candidate]) && x.number >= 1
  }

  lemma RuleWellNumbered(candidates: seq<Candidate>, w: Window)
    requires DistinctIds(candidates)
    ensures WellNumbered(AssembleOrder(Renumbered(Rule(candidates, w))), ById(candidates))
  {
    var p, byId := Rule(candidates, w), ById(candidates);
    var r := Renumbered(p);
    RuleAccountsForAll(candidates, w);
    ByIdHolds(candidates);
    OrderIsPermutation(r, byId);
    forall x | x in AssembleOrder(r)
      ensures x.candidate in byId && x.total == Total(byId[x.candidate]) && x.number >= 1
    {
      assert x in multiset(AssembleOrder(r));
      assert x in multiset(r);
      var k: nat :| k < |r| && r[k] == x;
      RenumberedKeepsPlaces(p, k);
      HeldOfMember(p, k);
      OwedDistinct(candidates, x.candidate);
      assert Held(p, x.candidate) == Owed(candidates, x.candidate);
      if x.candidate in byId {
        var j :| 0 <= j < |candidates| && candidates[j].id == x.candidate;
        assert byId[x.candidate] == candidates[j];
      }
    }
  }

  /** The stored task of a well-numbered session is recognised as the candidate's work. */
  lemma TaskKey(c: Candidate, x: Session)
    requires x.total == Total(c) && x.number >= 1
    ensures Fold(BaseTitle(TaskFor(c, x).title)) == WorkKey(c.title, Total(c))
  {
    if Total(c) > 1 { BaseTitleOfPrinted(c.title, x.number, x.total); }
  }

  lemma TaskCountSnoc(tasks: seq<PlanTask>, t: PlanTask, key: string)
    ensures TaskCount(tasks + [t], key) == TaskCount(tasks, key) + if KeyOf(t) == key then 1 else 0
  {
    CountSnoc((t: PlanTask) => KeyOf(t) == key, tasks, t);
  }

  lemma StoredTask(front: seq<Task>, c: Candidate, x: Session, key: string)
    requires x.total == Total(c) && x.number >= 1
    ensures TaskCount(PlanTasks(front + [TaskFor(c, x)]), key) ==
            TaskCount(PlanTasks(front), key) + if WorkKey(c.title, Total(c)) == key then 1 else 0
  {
    var t := TaskFor(c, x);
    var stored := PlanTask(t.title, t.description, Some(t.day));
    assert PlanTasks(front + [t]) == PlanTasks(front) + [stored];
    TaskCountSnoc(PlanTasks(front), stored, key);
    TaskKey(c, x);
  }

  lemma {:induction false} CountTasks(s: seq<Session>, byId: map<string, Candidate>, course: nat, key: string)
    requires WellNumbered(s, byId)
    ensures TaskCount(PlanTasks(Tasks(s, byId, course)), key) ==
            Count((x: Session) => Chooses(byId, course, key)(x.candidate), s)
  {
    if |s| > 0 {
      var n := |s| - 1;
      var x := s[n];
      assert s == s[..n] + [x];
      assert x in s;
      CountTasks(s[..n], byId, course, key);
      CountSnoc((x: Session) => Chooses(byId, course, key)(x.candidate), s[..n], x);
      var c, front := byId[x.candidate], Tasks(s[..n], byId, course);
      assert Chooses(byId, course, key)(x.candidate) <==> c.course == course && WorkKey(c.title, Total(c)) == key;
      assert Tasks(s, byId, course) == if c.course == course then front + [TaskFor(c, x)] else front;
      StoredTask(front, c, x, key);
    }
  }

  // ---- From candidates back to the drafts of one course ----

  function DraftTotal(d: Draft): nat { Max(1, d.effort) }

  /** Sessions the drafts will add to the work with this key. */
  function Planned(drafts: seq<Draft>, key: string): nat {
    Sum((d: Draft) => if WorkKey(d.title, DraftTotal(d)) == key then DraftTotal(d) else 0, drafts)
  }

  function InCourse(c: Candidate, course: nat, key: string): nat {
    if c.course == course && WorkKey(c.title, Total(c)) == key then Total(c) else 0
  }

  function CourseWork(candidates: seq<Candidate>, course: nat, key: string): nat {
    Sum((c: Candidate) => InCourse(c, course, key), candidates)
  }

  lemma {:induction false} StampedWork(drafts: seq<Draft>, offset: nat, home: nat, name: string, course: nat,
                                       key: string)
    ensures CourseWork(StampAll(drafts, offset, home, name), course, key) ==
            if home == course then Planned(drafts, key) else 0
  {
    if |drafts| > 0 {
      StampedWork(drafts[1..], offset + 1, home, name, course, key);
      assert StampAll(drafts, offset, home, name)[1..] == StampAll(drafts[1..], offset + 1, home, name);
    }
  }

  /** The work the drafts of course `course` call for, 0 when there is no such course. */
  function WorkDue(courses: seq<Course>, end: Option<int>, course: nat, key: string): nat {
    if course < |courses| then Planned(Drafts(courses[course], CourseName(courses[course], course), end), key) else 0
  }

  lemma CollectedSnoc(front: seq<Course>, last: Course, end: Option<int>)
    ensures var n, cs := |front|, Collected(front, end);
            var name := CourseName(last, n);
            Collected(front + [last], end) == cs + StampAll(Drafts(last, name, end), |cs|, n, name)
  {
    assert (front + [last])[..|front|] == front;
  }

  lemma CollectedStep(front: seq<Course>, last: Course, end: Option<int>, course: nat, key: string)
    ensures CourseWork(Collected(front + [last], end), course, key) ==
            CourseWork(Collected(front, end), course, key) +
            (if course == |front| then Planned(Drafts(last, CourseName(last, |front|), end), key) else 0)
  {
    var n, cs := |front|, Collected(front, end);
    var name := CourseName(last, n);
    var stamped := StampAll(Drafts(last, name, end), |cs|, n, name);
    CollectedSnoc(front, last, end);
    StampedWork(Drafts(last, name, end), |cs|, n, name, course, key);
    SumAppend((c: Candidate) => InCourse(c, course, key), cs, stamped);
  }

  lemma WorkDueStep(front: seq<Course>, last: Course, end: Option<int>, course: nat, key: string)
    ensures course != |front| ==> WorkDue(front + [last], end, course, key) == WorkDue(front, end, course, key)
  {}

  lemma {:induction false} CollectedWork(courses: seq<Course>, end: Option<int>, course: nat, key: string)
    ensures CourseWork(Collected(courses, end), course, key) == WorkDue(courses, end, course, key)
  {
    if |courses| > 0 {
      var front, last := courses[..|courses| - 1], courses[|courses| - 1];
      assert courses == front + [last];
      CollectedWork(front, end, course, key);
      CollectedStep(front, last, end, course, key);
      WorkDueStep(front, last, end, course, key);
    }
  }

  lemma {:induction false} SumPointwise(f: Candidate -> nat, a: seq<Candidate>, b: seq<Candidate>)
    requires |a| == |b| && forall i | 0 <= i < |a| :: f(a[i]) == f(b[i])
    ensures Sum(f, a) == Sum(f, b)
  {
    if |a| > 0 { SumPointwise(f, a[1..], b[1..]); }
  }

  /** Whether an id names a candidate of this course with this work. */
  function Chooses(byId: map<string, Candidate>, course: nat, key: string): string -> bool {
    (id: string) => id in byId && byId[id].course == course && WorkKey(byId[id].title, Total(byId[id])) == key
  }

  lemma ChosenIsCourseWork(cs: seq<Candidate>, course: nat, key: string)
    requires DistinctIds(cs)
    ensures ChosenWork(Chooses(ById(cs), course, key), cs) == CourseWork(cs, course, key)
  {
    var chosen := Chooses(ById(cs), course, key);
    ByIdHolds(cs);
    forall c | c in cs ensures Share(chosen, c) == InCourse(c, course, key) {
      var k :| 0 <= k < |cs| && cs[k] == c;
      assert ById(cs)[cs[k].id] == cs[k];
    }
    SumAgrees((c: Candidate) => Share(chosen, c), (c: Candidate) => InCourse(c, course, key), cs);
  }

  lemma RuleTasksCount(cs: seq<Candidate>, w: Window, course: nat, key: string)
    requires DistinctIds(cs)
    ensures TaskCount(PlanTasks(Tasks(AssembleOrder(Renumbered(Rule(cs, w))), ById(cs), course)), key) ==
            CourseWork(cs, course, key)
  {
    var order, chosen := AssembleOrder(Renumbered(Rule(cs, w))), Chooses(ById(cs), course, key);
    RuleWellNumbered(cs, w);
    CountTasks(order, ById(cs), course, key);
    CountRule(chosen, cs, w);
    ChosenIsCourseWork(cs, course, key);
  }

  lemma ScoredWork(plain: seq<Candidate>, today: int, i: nat, key: string)
    ensures CourseWork(Scored(plain, today), i, key) == CourseWork(plain, i, key)
  {
    SumPointwise((c: Candidate) => InCourse(c, i, key), Scored(plain, today), plain);
  }

  lemma StepTasks(courses: seq<Course>, env: Env, i: nat)
    requires i < |courses|
    ensures var cs := Scored(Collected(courses, env.end), env.today);
            DistinctIds(cs) &&
            Step(courses, env)[i].remaining ==
            PlanTasks(Tasks(AssembleOrder(Renumbered(Rule(cs, env.w))), ById(cs), i))
  {
    CollectedIdsDistinct(courses, env.end);
  }

  /** After a run, each course holds exactly the sessions its drafts called for, work by work. */
  lemma StepStoresDrafts(courses: seq<Course>, env: Env, i: nat, key: string)
    requires i < |courses|
    ensures TaskCount(Step(courses, env)[i].remaining, key) ==
            Planned(Drafts(courses[i], CourseName(courses[i], i), env.end), key)
  {
    var plain := Collected(courses, env.end);
    StepTasks(courses, env, i);
    RuleTasksCount(Scored(plain, env.today), env.w, i, key);
    ScoredWork(plain, env.today, i, key);
    CollectedWork(courses, env.end, i, key);
  }

  // ---- Which work a plan holds, and which it would add ----

  /** The distinct pieces of work among the tasks of a plan. */
  ghost function WorkTitles(tasks: seq<PlanTask>): set<string> {
    set t | t in tasks && BaseTitle(t.title) != "" :: KeyOf(t)
  }

  ghost function PrepKeys(ds: seq<Deadline>): set<string> {
    if |ds| == 0 then {}
    else PrepKeys(ds[..|ds| - 1]) + if Blank(ds[|ds| - 1].title) then {} else {Fold(PrepTitle(ds[|ds| - 1]))}
  }

  ghost function StudyKeys(ms: seq<Material>, done: seq<string>): set<string> {
    if |ms| == 0 then {}
    else
      var m := ms[|ms| - 1];
      StudyKeys(ms[..|ms| - 1], done) + if IsCompleted(Strip(m.title), done) then {} else {Fold(StudyTitle(m))}
  }

  ghost function ReviewKeys(ps: seq<Performance>, done: seq<string>): set<string> {
    if |ps| == 0 then {}
    else
      var p := ps[|ps| - 1];
      ReviewKeys(ps[..|ps| - 1], done) + if NeedsReview(p, done, {}) then {Fold(ReviewTitle(p))} else {}
  }

  /** Work the course itself calls for: its deadlines, its unfinished documents, its weak topics. */
  ghost function SourceKeys(course: Course): set<string> {
    PrepKeys(course.deadlines) + StudyKeys(course.materials, Done(course)) +
    ReviewKeys(course.performance, Done(course))
  }

  lemma {:induction false} PrepTitles(ds: seq<Deadline>, seen: set<string>, course: Course, name: string,
                                      end: Option<int>)
    ensures Titles(Preps(ds, seen, course, name, end)) == PrepKeys(ds) - seen
  {
    if |ds| > 0 {
      var n := |ds| - 1;
      PrepTitles(ds[..n], seen, course, name, end);
      TitlesSnoc(Preps(ds[..n], seen, course, name, end), PrepDraft(ds[n], course, name, end));
    }
  }

  lemma {:induction false} StudyTitles(ms: seq<Material>, seen: set<string>, course: Course, end: Option<int>)
    ensures Titles(Studies(ms, seen, course, end)) == StudyKeys(ms, Done(course)) - seen
  {
    if |ms| > 0 {
      var n := |ms| - 1;
      StudyTitles(ms[..n], seen, course, end);
      TitlesSnoc(Studies(ms[..n], seen, course, end), StudyDraft(ms[n], course, end));
    }
  }

  lemma {:induction false} ReviewTitles(ps: seq<Performance>, seen: set<string>, course: Course, end: Option<int>)
    ensures Titles(Reviews(ps, seen, course, end)) == ReviewKeys(ps, Done(course)) - seen
  {
    if |ps| > 0 {
      var n := |ps| - 1;
      ReviewTitles(ps[..n], seen, course, end);
      TitlesSnoc(Reviews(ps[..n], seen, course, end), ReviewDraft(ps[n], course, end));
    }
  }

  lemma TitlesAppend(a: seq<Draft>, b: seq<Draft>)
    ensures Titles(a + b) == Titles(a) + Titles(b)
  {
    assert forall x :: x in a + b <==> x in a || x in b;
  }

  /** The new work of a run is exactly the course's own work that the current plan does not carry. */
  lemma FreshTitles(course: Course, name: string, end: Option<int>, seen: set<string>)
    ensures Titles(Fresh(course, name, end, seen)) == SourceKeys(course) - seen
  {
    var preps := Preps(course.deadlines, seen, course, name, end);
    var known := seen + Titles(preps);
    var studies := Studies(course.materials, known, course, end);
    var reviews := Reviews(course.performance, known, course, end);
    PrepTitles(course.deadlines, seen, course, name, end);
    StudyTitles(course.materials, known, course, end);
    ReviewTitles(course.performance, known, course, end);
    TitlesAppend(preps, studies);
    TitlesAppend(preps + studies, reviews);
  }

  lemma NothingFreshIff(course: Course, name: string, end: Option<int>, seen: set<string>)
    ensures Fresh(course, name, end, seen) == [] <==> SourceKeys(course) <= seen
  {
    FreshTitles(course, name, end, seen);
    var added := Fresh(course, name, end, seen);
    if |added| > 0 { assert Fold(added[0].title) in Titles(added); }
  }

  // ---- Groups ----

  ghost predicate DistinctGroups(groups: seq<Group>) {
    forall i, j | 0 <= i < j < |groups| :: Fold(groups[i].title) != Fold(groups[j].title)
  }

  /** Sessions recorded for a key, 0 when no group has it. */
  function GroupCount(groups: seq<Group>, key: string): nat {
    if |groups| == 0 then 0
    else if Fold(groups[0].title) == key then groups[0].sessions else GroupCount(groups[1..], key)
  }

  lemma {:induction false} AddToGroupKeys(groups: seq<Group>, title: string, task: PlanTask)
    ensures GroupKeys(AddToGroup(groups, title, task)) == GroupKeys(groups) + {Fold(title)}
  {
    if |groups| == 0 {
    } else {
      var g0, rest := groups[0], groups[1..];
      assert groups == [g0] + rest;
      AddToGroupKeys(rest, title, task);
      GroupKeysCons(g0, rest);
      GroupKeysCons(g0.(sessions := g0.sessions + 1), rest);
      GroupKeysCons(g0, AddToGroup(rest, title, task));
    }
  }

  lemma GroupKeysCons(g: Group, rest: seq<Group>)
    ensures GroupKeys([g] + rest) == {Fold(g.title)} + GroupKeys(rest)
  {
    assert forall h :: h in [g] + rest <==> h == g || h in rest;
  }

  lemma {:induction false} AddToGroupDistinct(groups: seq<Group>, title: string, task: PlanTask)
    requires DistinctGroups(groups)
    ensures DistinctGroups(AddToGroup(groups, title, task))
  {
    if |groups| == 0 {
    } else {
      var g0, rest := groups[0], groups[1..];
      if Fold(g0.title) != Fold(title) {
        AddToGroupDistinct(rest, title, task);
        AddToGroupKeys(rest, title, task);
        var tail := AddToGroup(rest, title, task);
        forall j | 0 <= j < |tail| ensures Fold(tail[j].title) != Fold(g0.title) {
          assert Fold(tail[j].title) in GroupKeys(tail);
        }
      }
    }
  }

  lemma {:induction false} AddToGroupCounts(groups: seq<Group>, title: string, task: PlanTask, key: string)
    ensures GroupCount(AddToGroup(groups, title, task), key) ==
            GroupCount(groups, key) + if key == Fold(title) then 1 else 0
  {
    if |groups| == 0 {
    } else {
      var g0, rest := groups[0], groups[1..];
      AddToGroupCounts(rest, title, task, key);
      assert ([g0] + AddToGroup(rest, title, task))[1..] == AddToGroup(rest, title, task);
      assert ([g0.(sessions := g0.sessions + 1)] + rest)[1..] == rest;
    }
  }

  lemma {:induction false} AddToGroupTitles(groups: seq<Group>, title: string, task: PlanTask, g: Group)
    requires g in AddToGroup(groups, title, task)
    ensures g.title == title || exists h | h in groups :: h.title == g.title
  {
    if |groups| == 0 {
    } else {
      var g0, rest := groups[0], groups[1..];
      if Fold(g0.title) == Fold(title) {
        if g !in rest { assert g.title == g0.title && g0 in groups; }
      } else if g in AddToGroup(rest, title, task) {
        AddToGroupTitles(rest, title, task, g);
      } else {
        assert g == g0;
      }
    }
  }

  lemma {:induction false} GroupsDistinct(tasks: seq<PlanTask>)
    ensures DistinctGroups(Groups(tasks, []))
    ensures GroupKeys(Groups(tasks, [])) == WorkTitles(tasks)
  {
    if |tasks| == 0 {
    } else {
      var n := |tasks| - 1;
      var t, groups := tasks[n], Groups(tasks[..n], []);
      assert tasks == tasks[..n] + [t];
      GroupsDistinct(tasks[..n]);
      AddToGroupDistinct(groups, BaseTitle(t.title), t);
      AddToGroupKeys(groups, BaseTitle(t.title), t);
      assert WorkTitles(tasks) == WorkTitles(tasks[..n]) + if BaseTitle(t.title) != "" then {KeyOf(t)} else {};
    }
  }

  lemma {:induction false} GroupsCount(tasks: seq<PlanTask>, key: string)
    requires key != ""
    ensures GroupCount(Groups(tasks, []), key) == TaskCount(tasks, key)
  {
    if |tasks| == 0 {
    } else {
      var n := |tasks| - 1;
      var t, groups := tasks[n], Groups(tasks[..n], []);
      assert tasks == tasks[..n] + [t];
      GroupsCount(tasks[..n], key);
      AddToGroupCounts(groups, BaseTitle(t.title), t, key);
      CountSnoc((t: PlanTask) => KeyOf(t) == key, tasks[..n], t);
    }
  }

  lemma {:induction false} GroupsAreTitled(tasks: seq<PlanTask>, g: Group)
    requires g in Groups(tasks, [])
    ensures exists t | t in tasks :: BaseTitle(t.title) == g.title
  {
    var n := |tasks| - 1;
    var t, groups := tasks[n], Groups(tasks[..n], []);
    assert tasks == tasks[..n] + [t];
    if Grouped(t, []) {
      AddToGroupTitles(groups, BaseTitle(t.title), t, g);
      if g.title != BaseTitle(t.title) {
        var h :| h in groups && h.title == g.title;
        GroupsAreTitled(tasks[..n], h);
      }
    } else {
      GroupsAreTitled(tasks[..n], g);
    }
  }
}
