/** A course of one document, planned again and again: its sessions either stay put or grow with every run. */
module ReplanGrowth {
  import opened Prelude
  import opened Text
  import opened Effort
  import opened Sessions
  import opened RuleScheduler
  import opened Numbering
  import opened Assembly
  import opened Candidates
  import opened Planner
  import opened Replan
  import opened ReplanLaws

  // ---- How many tasks a run stores, and under which base titles ----

  function SessionsOf(drafts: seq<Draft>): nat { Sum((d: Draft) => DraftTotal(d), drafts) }

  lemma {:induction false} StampedTotals(drafts: seq<Draft>, offset: nat, course: nat, name: string)
    ensures Work(StampAll(drafts, offset, course, name)) == SessionsOf(drafts)
  {
    if |drafts| > 0 {
      StampedTotals(drafts[1..], offset + 1, course, name);
      assert StampAll(drafts, offset, course, name)[1..] == StampAll(drafts[1..], offset + 1, course, name);
    }
  }

  lemma LoneCollected(course: Course, end: Option<int>)
    ensures var name := CourseName(course, 0);
            Collected([course], end) == StampAll(Drafts(course, name, end), 0, 0, name)
  {
    assert [course][..0] == [] && Collected([], end) == [];
  }

  /** Scoring changes no title and no effort. */
  lemma ScoredWork(cs: seq<Candidate>, today: int)
    ensures Work(Scored(cs, today)) == Work(cs)
  {
    SumPointwise((c: Candidate) => Total(c), Scored(cs, today), cs);
  }

  /** The candidates of a single course. */
  lemma LoneCandidates(course: Course, env: Env)
    ensures var drafts := Drafts(course, CourseName(course, 0), env.end);
            var cs := Scored(Collected([course], env.end), env.today);
            DistinctIds(cs) && Work(cs) == SessionsOf(drafts) && forall c | c in cs :: c.course == 0
    ensures Matches(Scored(Collected([course], env.end), env.today), Drafts(course, CourseName(course, 0), env.end))
  {
    var name := CourseName(course, 0);
    var plain := Collected([course], env.end);
    assert plain == StampAll(Drafts(course, name, env.end), 0, 0, name) by { LoneCollected(course, env.end); }
    assert DistinctIds(Scored(plain, env.today)) by { CollectedIdsDistinct([course], env.end); }
    assert Work(Scored(plain, env.today)) == SessionsOf(Drafts(course, name, env.end)) by {
      StampedTotals(Drafts(course, name, env.end), 0, 0, name);
      ScoredWork(plain, env.today);
    }
  }

  /** Candidate by candidate the title and effort of the drafts. */
  ghost predicate Matches(cs: seq<Candidate>, drafts: seq<Draft>) {
    |cs| == |drafts| &&
    forall k | 0 <= k < |cs| :: cs[k].title == drafts[k].title && cs[k].effort == drafts[k].effort
  }

  /** A run over one course stores as many tasks as its drafts have sessions. */
  lemma StepRemaining(course: Course, env: Env)
    ensures |Step([course], env)[0].remaining| ==
            SessionsOf(Drafts(course, CourseName(course, 0), env.end))
  {
    var cs := Scored(Collected([course], env.end), env.today);
    LoneCandidates(course, env);
    RuleTasksSize(cs, env.w);
  }

  /** The tasks of a schedule whose candidates all belong to the first course. */
  lemma RuleTasksSize(cs: seq<Candidate>, w: Window)
    requires DistinctIds(cs) && forall c | c in cs :: c.course == 0
    ensures |Tasks(AssembleOrder(Renumbered(Rule(cs, w))), ById(cs), 0)| == Work(cs)
  {
    var order, byId := AssembleOrder(Renumbered(Rule(cs, w))), ById(cs);
    assert |order| == Work(cs) by {
      OrderIsPermutation(Renumbered(Rule(cs, w)), byId);
      RuleSize(cs, w);
    }
    RuleWellNumbered(cs, w);
    ByIdHolds(cs);
    TaskTotalIsSize(order, byId, 1);
    assert TaskTotal(order, byId, 1) == TaskTotal(order, byId, 0) + |Tasks(order, byId, 0)|;
  }

  /** The base title under which a piece of work is recognised again. */
  function Recognised(title: string, total: nat): string { if total > 1 then Strip(title) else BaseTitle(title) }

  lemma {:induction false} TasksRecognised(s: seq<Session>, byId: map<string, Candidate>, course: nat, t: Task)
    requires WellNumbered(s, byId) && t in Tasks(s, byId, course)
    ensures exists id :: id in byId && BaseTitle(t.title) == Recognised(byId[id].title, Total(byId[id]))
  {
    var n := |s| - 1;
    var x := s[n];
    assert x in s && s == s[..n] + [x];
    var c := byId[x.candidate];
    if t in Tasks(s[..n], byId, course) {
      TasksRecognised(s[..n], byId, course, t);
    } else {
      assert t == TaskFor(c, x);
      if Total(c) > 1 { BaseTitleOfPrinted(c.title, x.number, x.total); }
      assert BaseTitle(t.title) == Recognised(byId[x.candidate].title, Total(byId[x.candidate]));
    }
  }

  /** Every stored task is recognised as one of the drafts. */
  lemma StoredRecognised(course: Course, env: Env, t: PlanTask)
    requires t in Step([course], env)[0].remaining
    ensures exists d | d in Drafts(course, CourseName(course, 0), env.end) ::
              BaseTitle(t.title) == Recognised(d.title, DraftTotal(d))
  {
    var drafts := Drafts(course, CourseName(course, 0), env.end);
    var cs := Scored(Collected([course], env.end), env.today);
    var s := AssembleOrder(Renumbered(Rule(cs, env.w)));
    var tasks := Tasks(s, ById(cs), 0);
    LoneCandidates(course, env);
    RuleWellNumbered(cs, env.w);
    var k :| 0 <= k < |tasks| && PlanTasks(tasks)[k] == t;
    TasksRecognised(s, ById(cs), 0, tasks[k]);
    var id :| id in ById(cs) && BaseTitle(t.title) == Recognised(ById(cs)[id].title, Total(ById(cs)[id]));
    ByIdHolds(cs);
    var j :| 0 <= j < |cs| && cs[j] == ById(cs)[id];
    assert drafts[j] in drafts && DraftTotal(drafts[j]) == Total(cs[j]);
  }

  // ---- Groups keep their sessions ----

  function GroupedSessions(groups: seq<Group>): nat { Sum((g: Group) => g.sessions, groups) }

  ghost predicate NonEmptyGroups(groups: seq<Group>) { forall g | g in groups :: g.sessions >= 1 }

  lemma {:induction false} AddToGroupSessions(groups: seq<Group>, title: string, task: PlanTask)
    requires NonEmptyGroups(groups)
    ensures NonEmptyGroups(AddToGroup(groups, title, task))
    ensures GroupedSessions(AddToGroup(groups, title, task)) == GroupedSessions(groups) + 1
  {
    if |groups| == 0 {
      var g := Group(title, 1, task);
      assert [g][1..] == [] && Sum((g: Group) => g.sessions, [g][1..]) == 0;
    } else {
      var g, rest := groups[0], groups[1..];
      assert groups == [g] + rest;
      if Fold(g.title) == Fold(title) {
        var h := g.(sessions := g.sessions + 1);
        assert AddToGroup(groups, title, task) == [h] + rest;
        assert ([h] + rest)[1..] == rest;
      } else {
        AddToGroupSessions(rest, title, task);
        assert ([g] + AddToGroup(rest, title, task))[1..] == AddToGroup(rest, title, task);
      }
    }
  }

  /** No task has an empty base title. */
  predicate Titled(tasks: seq<PlanTask>) { forall t | t in tasks :: BaseTitle(t.title) != "" }

  lemma {:induction false} GroupsKeepSessions(tasks: seq<PlanTask>)
    requires Titled(tasks)
    ensures GroupedSessions(Groups(tasks, [])) == |tasks| && NonEmptyGroups(Groups(tasks, []))
  {
    if |tasks| > 0 {
      var n := |tasks| - 1;
      assert tasks[n] in tasks;
      GroupsKeepSessions(tasks[..n]);
      AddToGroupSessions(Groups(tasks[..n], []), BaseTitle(tasks[n].title), tasks[n]);
    }
  }

  /** Groups whose own effort is one session are planned with exactly the sessions they have. */
  lemma {:induction false} GroupDraftSessions(groups: seq<Group>, course: Course, end: Option<int>)
    requires NonEmptyGroups(groups) && forall g | g in groups :: Expected(course, Fold(g.title)) <= g.sessions
    requires course.performance == []
    ensures SessionsOf(GroupDrafts(groups, course, end)) == GroupedSessions(groups)
  {
    if |groups| > 0 {
      var g := groups[0];
      assert g in groups;
      GroupDraftSessions(groups[1..], course, end);
      assert GroupDrafts(groups, course, end)[1..] == GroupDrafts(groups[1..], course, end);
      Unrated(course, Fold(g.title));
      Unrated(course, Fold(Strip(g.title)));
    }
  }

  // ---- One document ----

  /** A course of one document, with what its current plan still holds. */
  predicate Holds(course: Course, m: Material) {
    course == LoneDocument(m).(remaining := course.remaining)
  }

  function DocumentEffort(m: Material): int { EffortUnits(m.length, None) }

  /** The document's own draft, and the groups it finds in the plan. */
  lemma DocumentDrafts(course: Course, m: Material, end: Option<int>)
    requires Holds(course, m)
    ensures var groups := Groups(course.remaining, []);
            var own := StudyDraft(m, course, end);
            DraftTotal(own) == DocumentEffort(m) && own.title == StudyTitle(m) &&
            Drafts(course, "Course", end) == GroupDrafts(groups, course, end) +
                                             (if Fold(StudyTitle(m)) in GroupKeys(groups) then [] else [own])
  {
    var groups := Groups(course.remaining, []);
    var keys := GroupKeys(groups);
    Unrated(course, Fold(Strip(Strip(m.title))));
    EffortInRange(m.length, None);
    assert Done(course) == [] && !IsCompleted(Strip(m.title), []);
    assert Preps([], keys, course, "Course", end) == [] && Reviews([], keys + Titles([]), course, end) == [];
    assert course.materials == [m] && [m][..0] == [] && keys + Titles([]) == keys;
    assert Studies([], keys, course, end) == [];
    assert Studies([m], keys, course, end) == if Fold(StudyTitle(m)) in keys then [] else [StudyDraft(m, course, end)];
  }

  /** Its title, printed and read back, is the title again. */
  predicate Settles(m: Material) { Recognised(StudyTitle(m), DocumentEffort(m)) == StudyTitle(m) }

  /** Reading a printed title back never makes it longer, and keeps it only when it is the same. */
  lemma RecognisedShorter(title: string, total: nat)
    ensures Recognised(title, total) == title || |Recognised(title, total)| < |title|
  {
    StripShorter(title);
    match BeforeSuffix(title)
    case Some(front) =>
      SuffixFront(title, front);
      StripRightProps(title);
      StripShorter(front);
    case None =>
  }

  lemma StripShorter(s: string)
    ensures Strip(s) == s || |Strip(s)| < |s|
  {
    StripLeftShorter(s);
    StripRightProps(StripLeft(s));
  }

  lemma {:induction false} StripLeftShorter(s: string)
    ensures StripLeft(s) == s || |StripLeft(s)| < |s|
  {
    if |s| > 0 && IsSpace(s[0]) { StripLeftShrinks(s[1..]); }
  }

  /** A title that begins with "Study" is still one after reading it back. */
  lemma StudyStays(title: string, total: nat)
    requires "Study" <= title
    ensures "Study" <= Recognised(title, total)
  {
    StripStudy(title);
    match BeforeSuffix(title)
    case Some(front) =>
      var r := StripRight(title);
      StripRightProps(title);
      assert front + "(session " <= r by { SuffixFront(title, front); }
      assert (front + "(session ")[|front|] == '(';
      assert title[..5] == "Study" && '(' !in "Study";
      StripStudy(front);
    case None =>
  }

  /** The text before a session suffix is followed by the suffix. */
  lemma SuffixFront(s: string, front: string)
    requires BeforeSuffix(s) == Some(front)
    ensures front + "(session " <= StripRight(s)
  {
    var r := StripRight(s);
    var a := r[..|r| - 1];
    DropDigitsFront(a);
    var b := DropDigits(a);
    var c := b[..|b| - 4];
    DropDigitsFront(c);
    var d := DropDigits(c);
    assert d == front + "(session ";
  }

  lemma {:induction false} DropDigitsFront(s: string)
    ensures DropDigits(s) <= s
  {
    if |s| > 0 && IsDigit(s[|s| - 1]) { DropDigitsFront(s[..|s| - 1]); }
  }

  lemma StripStudy(s: string)
    requires "Study" <= s
    ensures "Study" <= Strip(s)
  {
    assert s[0] == 'S' && StripLeft(s) == s;
    StripRightStudy(s);
  }

  lemma {:induction false} StripRightStudy(s: string)
    requires "Study" <= s
    ensures "Study" <= StripRight(s)
  {
    if IsSpace(s[|s| - 1]) {
      assert s[4] == 'y';
      StripRightStudy(s[..|s| - 1]);
    }
  }

  // ---- A document that settles ----

  lemma {:induction false} OneGroup(tasks: seq<PlanTask>, title: string)
    requires |tasks| > 0 && title != "" && forall t | t in tasks :: BaseTitle(t.title) == title
    ensures |Groups(tasks, [])| == 1 && Groups(tasks, [])[0].title == title
    ensures Groups(tasks, [])[0].sessions == |tasks|
  {
    var n := |tasks| - 1;
    assert tasks[n] in tasks;
    if n == 0 {
      assert Groups(tasks[..0], []) == [];
    } else {
      OneGroup(tasks[..n], title);
    }
  }

  /** The plan of a settled document: its effort in sessions, all recognised under its own title. */
  predicate Settled(course: Course, m: Material) {
    Holds(course, m) && |course.remaining| == DocumentEffort(m) &&
    forall t | t in course.remaining :: BaseTitle(t.title) == StudyTitle(m)
  }

  lemma SettledDrafts(course: Course, m: Material, end: Option<int>)
    requires Settled(course, m)
    ensures var drafts := Drafts(course, "Course", end);
            |drafts| == 1 && drafts[0].title == StudyTitle(m) && DraftTotal(drafts[0]) == DocumentEffort(m)
  {
    var title := StudyTitle(m);
    var groups := Groups(course.remaining, []);
    EffortInRange(m.length, None);
    OneGroup(course.remaining, title);
    DocumentDrafts(course, m, end);
    assert groups[0] in groups && Fold(title) in GroupKeys(groups);
    Unrated(course, Fold(Strip(title)));
    assert course.materials == [m] && [m][..0] == [];
    assert LengthOfKey(course, Fold(title)) == m.length;
  }

  lemma FirstDrafts(course: Course, m: Material, end: Option<int>)
    requires Holds(course, m) && course.remaining == []
    ensures var drafts := Drafts(course, "Course", end);
            |drafts| == 1 && drafts[0].title == StudyTitle(m) && DraftTotal(drafts[0]) == DocumentEffort(m)
  {
    DocumentDrafts(course, m, end);
    assert Groups([], []) == [] && GroupDrafts([], course, end) == [];
  }

  lemma OneDraft(drafts: seq<Draft>)
    requires |drafts| == 1
    ensures SessionsOf(drafts) == DraftTotal(drafts[0]) && forall d | d in drafts :: d == drafts[0]
  {
    assert drafts[1..] == [] && SessionsOf(drafts[1..]) == 0;
  }

  /** A plan with a single draft for the document stores it settled. */
  lemma LoneDraftSettles(course: Course, m: Material, env: Env)
    requires Settles(m) && Holds(course, m)
    requires var drafts := Drafts(course, "Course", env.end);
             |drafts| == 1 && drafts[0].title == StudyTitle(m) && DraftTotal(drafts[0]) == DocumentEffort(m)
    ensures var after := Step([course], env)[0].remaining;
            |after| == DocumentEffort(m) && forall t | t in after :: BaseTitle(t.title) == StudyTitle(m)
  {
    assert CourseName(course, 0) == "Course";
    StepRemaining(course, env);
    OneDraft(Drafts(course, "Course", env.end));
    forall t | t in Step([course], env)[0].remaining ensures BaseTitle(t.title) == StudyTitle(m) {
      StoredRecognised(course, env, t);
      var d :| d in Drafts(course, "Course", env.end) && BaseTitle(t.title) == Recognised(d.title, DraftTotal(d));
    }
  }

  /** A run leaves everything about a course but its plan, when nothing is finished. */
  lemma StepHolds(course: Course, m: Material, env: Env)
    requires Holds(course, m)
    ensures |Step([course], env)| == 1 && Holds(Step([course], env)[0], m)
  {
    assert FinishedWork(course) == [];
  }

  /** A run from no plan, or from a settled one, ends with a settled one. */
  lemma SettledStep(course: Course, m: Material, env: Env)
    requires Settles(m) && Holds(course, m) && (course.remaining == [] || Settled(course, m))
    ensures Settled(Step([course], env)[0], m)
  {
    if course.remaining == [] { FirstDrafts(course, m, env.end); } else { SettledDrafts(course, m, env.end); }
    LoneDraftSettles(course, m, env);
    StepHolds(course, m, env);
  }

  // ---- A document that grows ----

  /** Every stored task is recognised under a title that is not the document's own. */
  predicate Growing(course: Course, m: Material) {
    Holds(course, m) &&
    forall t | t in course.remaining :: "Study" <= BaseTitle(t.title) && |BaseTitle(t.title)| < |StudyTitle(m)|
  }

  /** Such titles have no page count that would add sessions to their group. */
  lemma GroupEffortIsOne(course: Course, m: Material, title: string)
    requires Holds(course, m) && !Settles(m) && "Study" <= title && |title| < |StudyTitle(m)|
    ensures Expected(course, Fold(title)) == 1
  {
    var key := Fold(title);
    Unrated(course, key);
    EffortInRange(m.length, None);
    FoldLength(title);
    FoldLength(StudyTitle(m));
    FoldLength(Strip(m.title));
    assert course.materials == [m] && [m][..0] == [];
    assert key != Fold(StudyTitle(m)) && key != "";
    assert EffortUnits(None, None) == 1;
    if DocumentEffort(m) > 1 {
      StripStudyTitle(m);
      assert Strip(m.title) == "";
    }
    assert Lengths([]) == map[];
    assert LengthOfKey(course, key) == None || (LengthOfKey(course, key) == m.length && DocumentEffort(m) == 1);
  }

  /** Trimming "Study x" changes it only when there is no x. */
  lemma StripStudyTitle(m: Material)
    ensures Strip(m.title) != "" ==> Strip(StudyTitle(m)) == StudyTitle(m)
  {
    var x := Strip(m.title);
    StripLeftProps(m.title);
    StripRightProps(StripLeft(m.title));
    if x != "" { StripFixed("Study " + x); }
  }

  /** Each run keeps the sessions in the plan and adds the document's own again. */
  lemma GrowingStep(course: Course, m: Material, env: Env)
    requires !Settles(m) && Growing(course, m)
    ensures Growing(Step([course], env)[0], m)
    ensures |Step([course], env)[0].remaining| == |course.remaining| + DocumentEffort(m)
  {
    var groups := Groups(course.remaining, []);
    var after := Step([course], env)[0];
    assert CourseName(course, 0) == "Course";
    forall g | g in groups ensures "Study" <= g.title && |g.title| < |StudyTitle(m)| {
      GroupsAreTitled(course.remaining, g);
    }
    assert Titled(course.remaining);
    GroupsKeepSessions(course.remaining);
    GrowingSessions(course, m, env.end, groups);
    StepRemaining(course, env);
    StepHolds(course, m, env);
    forall t | t in after.remaining
      ensures "Study" <= BaseTitle(t.title) && |BaseTitle(t.title)| < |StudyTitle(m)|
    {
      StoredRecognised(course, env, t);
      GrowingTitle(course, m, env.end, groups, BaseTitle(t.title));
    }
  }

  lemma GrowingSessions(course: Course, m: Material, end: Option<int>, groups: seq<Group>)
    requires !Settles(m) && Holds(course, m) && groups == Groups(course.remaining, []) && NonEmptyGroups(groups)
    requires forall g | g in groups :: "Study" <= g.title && |g.title| < |StudyTitle(m)|
    ensures Fold(StudyTitle(m)) !in GroupKeys(groups)
    ensures SessionsOf(Drafts(course, "Course", end)) == GroupedSessions(groups) + DocumentEffort(m)
  {
    FoldLength(StudyTitle(m));
    forall g | g in groups ensures Fold(g.title) != Fold(StudyTitle(m)) && Expected(course, Fold(g.title)) == 1 {
      FoldLength(g.title);
      GroupEffortIsOne(course, m, g.title);
    }
    DocumentDrafts(course, m, end);
    GroupDraftSessions(groups, course, end);
    SumSnoc((d: Draft) => DraftTotal(d), GroupDrafts(groups, course, end), StudyDraft(m, course, end));
  }

  /** Whatever a draft of a growing plan is recognised as, it is not the document's own title. */
  lemma GrowingTitle(course: Course, m: Material, end: Option<int>, groups: seq<Group>, title: string)
    requires !Settles(m) && Holds(course, m) && groups == Groups(course.remaining, [])
    requires forall g | g in groups :: "Study" <= g.title && |g.title| < |StudyTitle(m)|
    requires exists d | d in Drafts(course, "Course", end) :: title == Recognised(d.title, DraftTotal(d))
    ensures "Study" <= title && |title| < |StudyTitle(m)|
  {
    var d :| d in Drafts(course, "Course", end) && title == Recognised(d.title, DraftTotal(d));
    DocumentDrafts(course, m, end);
    RecognisedShorter(d.title, DraftTotal(d));
    if d in GroupDrafts(groups, course, end) {
      var k :| 0 <= k < |groups| && GroupDrafts(groups, course, end)[k] == d;
      assert d.title == groups[k].title && groups[k] in groups;
    } else {
      assert d == StudyDraft(m, course, end);
    }
    StudyStays(d.title, DraftTotal(d));
  }

  // ---- Any number of runs ----

  lemma {:induction false} RunsSettle(m: Material, envs: seq<Env>)
    requires Settles(m) && |envs| >= 1
    ensures |Runs([LoneDocument(m)], envs)| == 1 && Settled(Runs([LoneDocument(m)], envs)[0], m)
  {
    var n := |envs| - 1;
    var prev := Runs([LoneDocument(m)], envs[..n]);
    if n > 0 { RunsSettle(m, envs[..n]); }
    assert prev == [prev[0]];
    SettledStep(prev[0], m, envs[n]);
    StepHolds(prev[0], m, envs[n]);
  }

  lemma GrowsOnce(courses: seq<Course>, m: Material, env: Env)
    requires !Settles(m) && |courses| == 1 && Growing(courses[0], m)
    ensures |Step(courses, env)| == 1 && Growing(Step(courses, env)[0], m)
    ensures |Step(courses, env)[0].remaining| == |courses[0].remaining| + DocumentEffort(m)
  {
    assert courses == [courses[0]];
    GrowingStep(courses[0], m, env);
    StepHolds(courses[0], m, env);
  }

  /** The last of some runs of a growing document. */
  lemma LastRunGrows(m: Material, envs: seq<Env>)
    requires !Settles(m) && |envs| >= 1
    requires var prev := Runs([LoneDocument(m)], envs[..|envs| - 1]); |prev| == 1 && Growing(prev[0], m)
    ensures var prev, after := Runs([LoneDocument(m)], envs[..|envs| - 1]), Runs([LoneDocument(m)], envs);
            |after| == 1 && Growing(after[0], m) && |after[0].remaining| == |prev[0].remaining| + DocumentEffort(m)
  {
    GrowsOnce(Runs([LoneDocument(m)], envs[..|envs| - 1]), m, envs[|envs| - 1]);
  }

  lemma {:induction false} RunsGrow(m: Material, envs: seq<Env>)
    requires !Settles(m)
    ensures |Runs([LoneDocument(m)], envs)| == 1 && Growing(Runs([LoneDocument(m)], envs)[0], m)
    ensures |Runs([LoneDocument(m)], envs)[0].remaining| == DocumentEffort(m) * |envs|
  {
    if |envs| == 0 {
      assert Runs([LoneDocument(m)], []) == [LoneDocument(m)];
    } else {
      RunsGrow(m, envs[..|envs| - 1]);
      LastRunGrows(m, envs);
      TimesOneMore(DocumentEffort(m), |envs| - 1);
    }
  }

  lemma TimesOneMore(a: int, n: nat)
    ensures a * (n + 1) == a * n + a
  {}

  /** The same condition as in `LoneDocumentSettlesIff`. */
  lemma SettlesIff(m: Material)
    ensures Settles(m) <==> WorkKey(StudyTitle(m), DocumentEffort(m)) == Fold(StudyTitle(m))
  {
    var title := StudyTitle(m);
    EffortInRange(m.length, None);
    RecognisedShorter(title, DocumentEffort(m));
    FoldLength(title);
    FoldLength(Recognised(title, DocumentEffort(m)));
  }

  /** After any number of runs a one-document course holds its effort in sessions if its title reads back as itself, and
      that effort once per run if it does not. */
  lemma LoneDocumentSessions(m: Material, envs: seq<Env>)
    requires |envs| >= 1
    ensures var after := Runs([LoneDocument(m)], envs);
            |after| == 1 &&
            |after[0].remaining| == if Settles(m) then DocumentEffort(m) else DocumentEffort(m) * |envs|
  {
    if Settles(m) { RunsSettle(m, envs); } else { RunsGrow(m, envs); }
  }

  /** A one-page document named like session `i` of `n` has one more session after every run. */
  lemma SuffixedTitleMultiplies(name: string, i: nat, n: int, envs: seq<Env>)
    requires name != "" && Strip(name) == name && n > 1 && |envs| >= 1
    ensures var after := Runs([LoneDocument(Material(PrintedTitle(name, i, n), Some(1)))], envs);
            |after| == 1 && |after[0].remaining| == |envs|
  {
    var m := Material(PrintedTitle(name, i, n), Some(1));
    SuffixedTitleKey(name, i, n);
    SettlesIff(m);
    assert DocumentEffort(m) == 1;
    LoneDocumentSessions(m, envs);
  }
}
