/** The replanning theorems: what any number of runs keeps, and exactly when a plan stops growing. */
module ReplanLaws {
  import opened Prelude
  import opened Text
  import opened Effort
  import opened Sessions
  import opened RuleScheduler
  import opened Validator
  import opened Numbering
  import opened Assembly
  import opened Candidates
  import opened Planner
  import opened Replan

  /** A title the session-suffix parser leaves alone. */
  predicate Clean(title: string) { BaseTitle(title) == title }

  lemma CleanKeys(title: string, total: nat)
    requires Clean(title)
    ensures WorkKey(title, total) == Fold(title) && Strip(title) == title
  {
    BaseTitleTrimmed(title);
  }

  /** Nothing is completed and no title the course supplies ends in a session suffix or stray white space. */
  ghost predicate Tidy(course: Course) {
    Done(course) == [] &&
    (forall d | d in course.deadlines && !Blank(d.title) :: Clean(PrepTitle(d))) &&
    (forall m | m in course.materials :: Clean(StudyTitle(m))) &&
    (forall p | p in course.performance && !Blank(p.topic) :: Clean(ReviewTitle(p))) &&
    (forall t | t in course.remaining :: Clean(BaseTitle(t.title)))
  }

  ghost predicate AllTidy(courses: seq<Course>) { forall i | 0 <= i < |courses| :: Tidy(courses[i]) }

  ghost predicate CleanDrafts(drafts: seq<Draft>) { forall d | d in drafts :: Clean(d.title) }

  // ---- Every draft of a tidy course has a clean title ----

  lemma {:induction false} PrepsClean(ds: seq<Deadline>, seen: set<string>, course: Course, name: string,
                                      end: Option<int>)
    requires forall d | d in ds && !Blank(d.title) :: Clean(PrepTitle(d))
    ensures CleanDrafts(Preps(ds, seen, course, name, end))
  {
    if |ds| > 0 { PrepsClean(ds[..|ds| - 1], seen, course, name, end); }
  }

  lemma {:induction false} StudiesClean(ms: seq<Material>, seen: set<string>, course: Course, end: Option<int>)
    requires forall m | m in ms :: Clean(StudyTitle(m))
    ensures CleanDrafts(Studies(ms, seen, course, end))
  {
    if |ms| > 0 { StudiesClean(ms[..|ms| - 1], seen, course, end); }
  }

  lemma {:induction false} ReviewsClean(ps: seq<Performance>, seen: set<string>, course: Course, end: Option<int>)
    requires forall p | p in ps && !Blank(p.topic) :: Clean(ReviewTitle(p))
    ensures CleanDrafts(Reviews(ps, seen, course, end))
  {
    if |ps| > 0 { ReviewsClean(ps[..|ps| - 1], seen, course, end); }
  }

  lemma GroupsClean(course: Course, g: Group)
    requires Tidy(course) && g in Groups(course.remaining, [])
    ensures Clean(g.title)
  {
    GroupsAreTitled(course.remaining, g);
    var t :| t in course.remaining && BaseTitle(t.title) == g.title;
  }

  lemma FreshClean(course: Course, name: string, end: Option<int>, seen: set<string>)
    requires Tidy(course)
    ensures CleanDrafts(Fresh(course, name, end, seen))
  {
    var known := seen + Titles(Preps(course.deadlines, seen, course, name, end));
    PrepsClean(course.deadlines, seen, course, name, end);
    StudiesClean(course.materials, known, course, end);
    ReviewsClean(course.performance, known, course, end);
  }

  lemma DraftsClean(course: Course, name: string, end: Option<int>)
    requires Tidy(course)
    ensures CleanDrafts(Drafts(course, name, end))
  {
    var groups := Groups(course.remaining, []);
    FreshClean(course, name, end, GroupKeys(groups));
    forall d | d in GroupDrafts(groups, course, end) ensures Clean(d.title) {
      var k :| 0 <= k < |groups| && d == GroupDraft(groups[k], course, end);
      GroupsClean(course, groups[k]);
    }
  }

  lemma StampedClean(drafts: seq<Draft>, offset: nat, course: nat, name: string)
    requires CleanDrafts(drafts)
    ensures forall c | c in StampAll(drafts, offset, course, name) :: Clean(c.title)
  {
    var stamped := StampAll(drafts, offset, course, name);
    forall c | c in stamped ensures Clean(c.title) {
      var k :| 0 <= k < |stamped| && stamped[k] == c;
      assert drafts[k] in drafts && c.title == drafts[k].title;
    }
  }

  lemma {:induction false} CollectedClean(courses: seq<Course>, end: Option<int>)
    requires AllTidy(courses)
    ensures forall c | c in Collected(courses, end) :: Clean(c.title)
  {
    if |courses| > 0 {
      var n := |courses| - 1;
      CollectedClean(courses[..n], end);
      var front, name := Collected(courses[..n], end), CourseName(courses[n], n);
      DraftsClean(courses[n], name, end);
      StampedClean(Drafts(courses[n], name, end), |front|, n, name);
    }
  }

  // ---- A run keeps courses tidy ----

  lemma {:induction false} TasksClean(s: seq<Session>, byId: map<string, Candidate>, course: nat)
    requires WellNumbered(s, byId) && forall id | id in byId :: Clean(byId[id].title)
    ensures forall t | t in Tasks(s, byId, course) :: Clean(BaseTitle(t.title))
  {
    if |s| > 0 {
      var n := |s| - 1;
      assert s == s[..n] + [s[n]];
      assert s[n] in s;
      TasksClean(s[..n], byId, course);
      var c, x := byId[s[n].candidate], s[n];
      CleanKeys(c.title, x.total);
      if Total(c) > 1 { BaseTitleOfPrinted(c.title, x.number, x.total); }
    }
  }

  /** The scored candidates of tidy courses all have clean titles. */
  lemma ScoredClean(courses: seq<Course>, env: Env)
    requires AllTidy(courses)
    ensures var cs := Scored(Collected(courses, env.end), env.today);
            DistinctIds(cs) && forall id | id in ById(cs) :: Clean(ById(cs)[id].title)
  {
    var plain := Collected(courses, env.end);
    var cs := Scored(plain, env.today);
    CollectedClean(courses, env.end);
    CollectedIdsDistinct(courses, env.end);
    ByIdHolds(cs);
    forall id | id in ById(cs) ensures Clean(ById(cs)[id].title) {
      var k :| 0 <= k < |cs| && cs[k] == ById(cs)[id];
      assert plain[k] in plain;
    }
  }

  lemma StoredTasksClean(courses: seq<Course>, env: Env, i: nat)
    requires AllTidy(courses) && i < |courses|
    ensures forall t | t in Step(courses, env)[i].remaining :: Clean(BaseTitle(t.title))
  {
    var cs := Scored(Collected(courses, env.end), env.today);
    ScoredClean(courses, env);
    RuleWellNumbered(cs, env.w);
    var s := AssembleOrder(Renumbered(Rule(cs, env.w)));
    TasksClean(s, ById(cs), i);
    var tasks := Tasks(s, ById(cs), i);
    forall t | t in PlanTasks(tasks) ensures Clean(BaseTitle(t.title)) {
      var k :| 0 <= k < |tasks| && PlanTasks(tasks)[k] == t;
      assert tasks[k] in tasks;
    }
  }

  lemma StepKeepsTidy(courses: seq<Course>, env: Env)
    requires AllTidy(courses)
    ensures |Step(courses, env)| == |courses| && AllTidy(Step(courses, env))
  {
    forall i | 0 <= i < |courses| ensures Tidy(Step(courses, env)[i]) {
      StoredTasksClean(courses, env, i);
      assert Tidy(courses[i]);
      assert Done(Step(courses, env)[i]) == [];
    }
  }

  // ---- What one run does to the work of a course ----

  lemma OthersHaveOtherKeys(groups: seq<Group>)
    requires DistinctGroups(groups) && |groups| > 0
    ensures Fold(groups[0].title) !in GroupKeys(groups[1..])
  {
    forall h | h in groups[1..] ensures Fold(h.title) != Fold(groups[0].title) {
      var k :| 0 <= k < |groups| - 1 && groups[1..][k] == h;
      assert groups[k + 1] == h;
    }
  }

  /** What one group adds to the work planned under a key. */
  lemma GroupPlanned(g: Group, rest: seq<Group>, course: Course, end: Option<int>, key: string)
    requires Clean(g.title)
    ensures Planned(GroupDrafts([g] + rest, course, end), key) ==
            Planned(GroupDrafts(rest, course, end), key) +
            if Fold(g.title) == key then Max(g.sessions, Expected(course, key)) else 0
  {
    var d := GroupDraft(g, course, end);
    assert GroupDrafts([g] + rest, course, end)[1..] == GroupDrafts(rest, course, end);
    CleanKeys(g.title, DraftTotal(d));
    EffortInRange(LengthOfKey(course, Fold(g.title)), MasteryFor(course, g.title));
    assert DraftTotal(d) == Max(g.sessions, Expected(course, Fold(g.title)));
  }

  lemma {:induction false} GroupsPlanned(groups: seq<Group>, course: Course, end: Option<int>, key: string)
    requires DistinctGroups(groups) && forall g | g in groups :: Clean(g.title)
    ensures Planned(GroupDrafts(groups, course, end), key) ==
            if key in GroupKeys(groups) then Max(GroupCount(groups, key), Expected(course, key)) else 0
  {
    if |groups| == 0 {
    } else {
      var g, rest := groups[0], groups[1..];
      assert groups == [g] + rest;
      GroupsPlanned(rest, course, end, key);
      GroupKeysCons(g, rest);
      GroupPlanned(g, rest, course, end, key);
      OthersHaveOtherKeys(groups);
    }
  }

  lemma PlannedAppend(a: seq<Draft>, b: seq<Draft>, key: string)
    ensures Planned(a + b, key) == Planned(a, key) + Planned(b, key)
  {
    SumAppend((d: Draft) => if WorkKey(d.title, DraftTotal(d)) == key then DraftTotal(d) else 0, a, b);
  }

  lemma {:induction false} PlannedPositive(drafts: seq<Draft>, key: string)
    ensures Planned(drafts, key) > 0 <==> exists d | d in drafts :: WorkKey(d.title, DraftTotal(d)) == key
  {
    if |drafts| > 0 {
      PlannedPositive(drafts[1..], key);
      assert drafts == [drafts[0]] + drafts[1..];
    }
  }

  lemma WorkIsCounted(tasks: seq<PlanTask>, key: string)
    ensures key in WorkTitles(tasks) <==> key != "" && TaskCount(tasks, key) > 0
  {
    CountPositive((t: PlanTask) => KeyOf(t) == key, tasks);
  }

  lemma {:induction false} FoldLength(s: string)
    ensures |Fold(s)| == |s|
  {
    if |s| > 0 { FoldLength(s[1..]); }
  }

  lemma {:induction false} PrepKeysNonEmpty(ds: seq<Deadline>)
    ensures "" !in PrepKeys(ds)
  {
    if |ds| > 0 {
      PrepKeysNonEmpty(ds[..|ds| - 1]);
      FoldLength(PrepTitle(ds[|ds| - 1]));
    }
  }

  lemma {:induction false} StudyKeysNonEmpty(ms: seq<Material>, done: seq<string>)
    ensures "" !in StudyKeys(ms, done)
  {
    if |ms| > 0 {
      StudyKeysNonEmpty(ms[..|ms| - 1], done);
      FoldLength(StudyTitle(ms[|ms| - 1]));
    }
  }

  lemma {:induction false} ReviewKeysNonEmpty(ps: seq<Performance>, done: seq<string>)
    ensures "" !in ReviewKeys(ps, done)
  {
    if |ps| > 0 {
      ReviewKeysNonEmpty(ps[..|ps| - 1], done);
      FoldLength(ReviewTitle(ps[|ps| - 1]));
    }
  }

  lemma SourceKeysNonEmpty(course: Course)
    ensures "" !in SourceKeys(course)
  {
    PrepKeysNonEmpty(course.deadlines);
    StudyKeysNonEmpty(course.materials, Done(course));
    ReviewKeysNonEmpty(course.performance, Done(course));
  }

  lemma CleanFreshPlanned(course: Course, name: string, end: Option<int>, seen: set<string>, key: string)
    requires Tidy(course)
    ensures Planned(Fresh(course, name, end, seen), key) > 0 <==> key in SourceKeys(course) - seen
  {
    var added := Fresh(course, name, end, seen);
    FreshClean(course, name, end, seen);
    FreshTitles(course, name, end, seen);
    PlannedPositive(added, key);
    forall d | d in added ensures WorkKey(d.title, DraftTotal(d)) == Fold(d.title) {
      CleanKeys(d.title, DraftTotal(d));
    }
  }

  /** The work a course holds after a run, piece by piece. */
  lemma StepWorkAt(courses: seq<Course>, env: Env, i: nat, key: string)
    requires AllTidy(courses) && i < |courses| && key != ""
    ensures var before, after := courses[i].remaining, Step(courses, env)[i].remaining;
            (key in WorkTitles(after) <==> key in WorkTitles(before) || key in SourceKeys(courses[i])) &&
            (key in WorkTitles(before) ==>
               TaskCount(after, key) == Max(TaskCount(before, key), Expected(courses[i], key)))
  {
    var course := courses[i];
    assert Tidy(course);
    var groups, name := Groups(course.remaining, []), CourseName(course, i);
    GroupsDistinct(course.remaining);
    GroupsCount(course.remaining, key);
    forall g | g in groups ensures Clean(g.title) { GroupsClean(course, g); }
    GroupsPlanned(groups, course, env.end, key);
    PlannedAppend(GroupDrafts(groups, course, env.end), Fresh(course, name, env.end, GroupKeys(groups)), key);
    CleanFreshPlanned(course, name, env.end, GroupKeys(groups), key);
    StepStoresDrafts(courses, env, i, key);
    WorkIsCounted(course.remaining, key);
    WorkIsCounted(Step(courses, env)[i].remaining, key);
    EffortInRange(LengthOfKey(course, key), MasteryOfKey(course, key));
  }

  lemma StepWork(courses: seq<Course>, env: Env, i: nat)
    requires AllTidy(courses) && i < |courses|
    ensures WorkTitles(Step(courses, env)[i].remaining) == WorkTitles(courses[i].remaining) + SourceKeys(courses[i])
  {
    SourceKeysNonEmpty(courses[i]);
    WorkIsCounted(courses[i].remaining, "");
    WorkIsCounted(Step(courses, env)[i].remaining, "");
    forall key | key != ""
      ensures key in WorkTitles(Step(courses, env)[i].remaining) <==>
              key in WorkTitles(courses[i].remaining) + SourceKeys(courses[i])
    {
      StepWorkAt(courses, env, i, key);
    }
  }

  // ---- Any number of runs ----

  /** The courses after one run per environment, in order. */
  function Runs(courses: seq<Course>, envs: seq<Env>): seq<Course> {
    if |envs| == 0 then courses else Step(Runs(courses, envs[..|envs| - 1]), envs[|envs| - 1])
  }

  ghost predicate SameSources(a: Course, b: Course) {
    SourceKeys(a) == SourceKeys(b) && forall key :: Expected(a, key) == Expected(b, key)
  }

  lemma StepKeepsSources(courses: seq<Course>, env: Env, i: nat)
    requires i < |courses| && Done(courses[i]) == []
    ensures |Step(courses, env)| == |courses| && SameSources(Step(courses, env)[i], courses[i])
  {
    var after := Step(courses, env)[i];
    assert Done(after) == [];
    forall key ensures Expected(after, key) == Expected(courses[i], key) {
      assert LengthOfKey(after, key) == LengthOfKey(courses[i], key);
    }
  }

  lemma {:induction false} RunsKeepSources(courses: seq<Course>, envs: seq<Env>)
    requires AllTidy(courses)
    ensures var after := Runs(courses, envs);
            |after| == |courses| && AllTidy(after) &&
            forall i | 0 <= i < |courses| :: SameSources(after[i], courses[i])
  {
    if |envs| > 0 {
      var n := |envs| - 1;
      var prev := Runs(courses, envs[..n]);
      RunsKeepSources(courses, envs[..n]);
      StepKeepsTidy(prev, envs[n]);
      forall i | 0 <= i < |courses| ensures SameSources(Step(prev, envs[n])[i], courses[i]) {
        assert Tidy(prev[i]);
        StepKeepsSources(prev, envs[n], i);
        assert SameSources(prev[i], courses[i]);
      }
    }
  }

  /** The last of some runs: what it starts from, and the work titles it leaves. */
  lemma LastRun(courses: seq<Course>, envs: seq<Env>, i: nat)
    requires AllTidy(courses) && i < |courses| && |envs| >= 1
    ensures var prev := Runs(courses, envs[..|envs| - 1]);
            |prev| == |Runs(courses, envs)| == |courses| &&
            WorkTitles(Runs(courses, envs)[i].remaining) == WorkTitles(prev[i].remaining) + SourceKeys(courses[i])
  {
    var n := |envs| - 1;
    var prev := Runs(courses, envs[..n]);
    RunsKeepSources(courses, envs[..n]);
    RunsKeepSources(courses, envs);
    StepWork(prev, envs[n], i);
    assert SameSources(prev[i], courses[i]);
  }

  /** From the first run on, a course holds the same work titles, however often it is replanned. */
  lemma {:induction false} ReplanningKeepsWorkTitles(courses: seq<Course>, envs: seq<Env>, i: nat)
    requires AllTidy(courses) && i < |courses| && |envs| >= 1
    ensures |Runs(courses, envs)| == |courses|
    ensures WorkTitles(Runs(courses, envs)[i].remaining) == WorkTitles(courses[i].remaining) + SourceKeys(courses[i])
  {
    LastRun(courses, envs, i);
    if |envs| > 1 { ReplanningKeepsWorkTitles(courses, envs[..|envs| - 1], i); }
  }

  /** Sessions of one piece of work that course `i` holds after the runs. */
  ghost function CountAfter(courses: seq<Course>, envs: seq<Env>, i: nat, key: string): nat
    requires AllTidy(courses) && i < |courses|
  {
    RunsKeepSources(courses, envs);
    TaskCount(Runs(courses, envs)[i].remaining, key)
  }

  /** Each later run schedules max(sessions so far, expected effort) sessions of every piece of work. */
  lemma ReplanningCounts(courses: seq<Course>, envs: seq<Env>, next: Env, i: nat, key: string)
    requires AllTidy(courses) && i < |courses| && |envs| >= 1
    requires key in WorkTitles(courses[i].remaining) + SourceKeys(courses[i])
    ensures CountAfter(courses, envs + [next], i, key) ==
            Max(CountAfter(courses, envs, i, key), Expected(courses[i], key))
  {
    var now := Runs(courses, envs);
    RunsKeepSources(courses, envs);
    ReplanningKeepsWorkTitles(courses, envs, i);
    assert (envs + [next])[..|envs|] == envs;
    WorkIsCounted(now[i].remaining, key);
    StepWorkAt(now, next, i, key);
    assert SameSources(now[i], courses[i]);
  }

  /** A count that takes the maximum with a fixed value at every further run no longer changes after the second. */
  lemma {:induction false} MaximumSettles(count: seq<Env> -> nat, floor: int, envs: seq<Env>)
    requires |envs| >= 2
    requires forall front, next | |front| >= 1 :: count(front + [next]) == Max(count(front), floor)
    ensures count(envs) == count(envs[..2]) >= floor
  {
    var n := |envs| - 1;
    assert envs == envs[..n] + [envs[n]];
    if n == 1 {
      assert envs[..2] == envs;
    } else {
      MaximumSettles(count, floor, envs[..n]);
      assert envs[..n][..2] == envs[..2];
    }
  }

  /** From the second run on, the number of sessions of every piece of work no longer changes. */
  lemma ReplanningSettles(courses: seq<Course>, envs: seq<Env>, i: nat, key: string)
    requires AllTidy(courses) && i < |courses| && |envs| >= 2
    requires key in WorkTitles(courses[i].remaining) + SourceKeys(courses[i])
    ensures CountAfter(courses, envs, i, key) == CountAfter(courses, envs[..2], i, key) >= Expected(courses[i], key)
  {
    var count := (es: seq<Env>) => CountAfter(courses, es, i, key);
    forall front, next | |front| >= 1 ensures count(front + [next]) == Max(count(front), Expected(courses[i], key)) {
      ReplanningCounts(courses, front, next, i, key);
    }
    MaximumSettles(count, Expected(courses[i], key), envs);
  }

  // ---- Exactly when a stored plan stops growing ----

  lemma StoredWork(courses: seq<Course>, env: Env, i: nat, key: string)
    requires i < |courses| && key != ""
    ensures key in WorkTitles(Step(courses, env)[i].remaining) <==>
            exists d | d in Drafts(courses[i], CourseName(courses[i], i), env.end) ::
              WorkKey(d.title, DraftTotal(d)) == key
  {
    StepStoresDrafts(courses, env, i, key);
    WorkIsCounted(Step(courses, env)[i].remaining, key);
    PlannedPositive(Drafts(courses[i], CourseName(courses[i], i), env.end), key);
  }

  /** The next run adds no new work exactly when every title the course supplies is recognised in some draft of this
      run. */
  lemma NextRunAddsNothingIff(courses: seq<Course>, env: Env, i: nat, name: string, end: Option<int>)
    requires i < |courses| && Done(courses[i]) == []
    ensures var stored := Step(courses, env)[i];
            Fresh(stored, name, end, GroupKeys(Groups(stored.remaining, Done(stored)))) == [] <==>
            forall key | key in SourceKeys(courses[i]) ::
              exists d | d in Drafts(courses[i], CourseName(courses[i], i), env.end) ::
                WorkKey(d.title, DraftTotal(d)) == key
  {
    var stored := Step(courses, env)[i];
    assert Done(stored) == [];
    assert SourceKeys(stored) == SourceKeys(courses[i]);
    GroupsDistinct(stored.remaining);
    NothingFreshIff(stored, name, end, WorkTitles(stored.remaining));
    SourceKeysNonEmpty(courses[i]);
    forall key | key in SourceKeys(courses[i])
      ensures key in WorkTitles(stored.remaining) <==>
              exists d | d in Drafts(courses[i], CourseName(courses[i], i), env.end) ::
                WorkKey(d.title, DraftTotal(d)) == key
    {
      StoredWork(courses, env, i, key);
    }
  }

  /** A course that consists of one document. */
  function LoneDocument(m: Material): Course { Course("Course", [m], [], [], [], [], []) }

  lemma LoneDocumentDrafts(m: Material, end: Option<int>)
    ensures var course := LoneDocument(m);
            Drafts(course, "Course", end) == [StudyDraft(m, course, end)] &&
            SourceKeys(course) == {Fold(StudyTitle(m))}
  {
    var course := LoneDocument(m);
    assert GroupDrafts([], course, end) == [];
    assert Preps([], GroupKeys([]), course, "Course", end) == [];
    assert Studies([], GroupKeys([]) + Titles([]), course, end) == [];
    assert course.materials[..0] == [];
    assert PrepKeys([]) == {} && ReviewKeys([], []) == {} && StudyKeys([], []) == {};
    assert Done(course) == [] && !IsCompleted(Strip(m.title), []);
    assert StudyKeys([m], []) == {} + {Fold(StudyTitle(m))};
  }

  /** A one-document course settles after its first run exactly when its printed title is recognised as that document.
      */
  lemma LoneDocumentSettlesIff(m: Material, env: Env, end: Option<int>)
    ensures var course := LoneDocument(m);
            var stored := Step([course], env)[0];
            Fresh(stored, "Course", end, GroupKeys(Groups(stored.remaining, Done(stored)))) == [] <==>
            WorkKey(StudyTitle(m), EffortUnits(m.length, MasteryFor(course, Strip(m.title)))) == Fold(StudyTitle(m))
  {
    var course := LoneDocument(m);
    LoneDocumentDrafts(m, env.end);
    var drafts := Drafts(course, "Course", env.end);
    EffortInRange(m.length, MasteryFor(course, Strip(m.title)));
    assert drafts[0] in drafts;
    assert CourseName(course, 0) == "Course";
    NextRunAddsNothingIff([course], env, 0, "Course", end);
  }

  /** A one-page document named like session `i` of `n` is not recognised, so the next run takes it up again. */
  lemma SuffixedTitleIsAddedAgain(name: string, i: nat, n: int, env: Env, end: Option<int>)
    requires name != "" && Strip(name) == name && n > 1
    ensures var m := Material(PrintedTitle(name, i, n), Some(1));
            var course := LoneDocument(m);
            var stored := Step([course], env)[0];
            Fresh(stored, "Course", end, GroupKeys(Groups(stored.remaining, Done(stored)))) != []
  {
    var m := Material(PrintedTitle(name, i, n), Some(1));
    SuffixedTitleKey(name, i, n);
    Unrated(LoneDocument(m), Fold(Strip(Strip(m.title))));
    LoneDocumentSettlesIff(m, env, end);
  }

  lemma StripBounds(s: string)
    ensures |Strip(s)| <= |s|
    ensures s != "" && Strip(s) == s ==> !IsSpace(s[0])
  {
    StripLeftProps(s);
    StripLeftShrinks(s);
    StripRightProps(StripLeft(s));
  }

  lemma {:induction false} StripLeftShrinks(s: string)
    ensures |StripLeft(s)| <= |s|
  {
    if |s| > 0 && IsSpace(s[0]) { StripLeftShrinks(s[1..]); }
  }

  lemma PrintedShape(front: string, name: string, i: nat, n: int)
    requires name != "" && n > 1
    ensures var printed := PrintedTitle(name, i, n);
            |printed| > |name| && printed[0] == name[0] && printed[|printed| - 1] == ')' &&
            front + printed == PrintedTitle(front + name, i, n)
  {
    var suffix := SessionSuffix(i, n);
    SessionSuffixCloses(i, n);
    assert front + (name + suffix) == (front + name) + suffix;
  }

  lemma ShorterKeyDiffers(title: string)
    requires |BaseTitle(title)| < |title|
    ensures WorkKey(title, 1) != Fold(title)
  {
    FoldLength(title);
    FoldLength(BaseTitle(title));
  }

  lemma SuffixedTitleKey(name: string, i: nat, n: int)
    requires name != "" && Strip(name) == name && n > 1
    ensures var title := StudyTitle(Material(PrintedTitle(name, i, n), Some(1)));
            WorkKey(title, 1) != Fold(title)
  {
    var printed, full := PrintedTitle(name, i, n), "Study " + name;
    StripBounds(name);
    PrintedShape("Study ", name, i, n);
    StripFixed(printed);
    BaseTitleOfPrinted(full, i, n);
    StripBounds(full);
    ShorterKeyDiffers("Study " + printed);
  }
}
