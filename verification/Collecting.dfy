/** What a course yields, on its own fields: nothing it calls for is forgotten, and nothing else is scheduled. */
module Collecting {
  import opened Prelude
  import opened Text
  import opened Effort
  import opened Assembly
  import opened Candidates
  import opened Replan

  // ---- Deadlines, mastery and page counts ----

  /** The earliest dated deadline of a course, or the end of the semester when none is dated. */
  lemma {:induction false} NearestIsEarliest(ds: seq<Deadline>, end: Option<int>)
    ensures (forall d | d in ds :: d.day.None?) ==> Nearest(ds, end) == end
    ensures forall d | d in ds && d.day.Some? :: Nearest(ds, end).Some? && Nearest(ds, end).value <= d.day.value
    ensures (exists d | d in ds :: d.day.Some?) ==>
              Nearest(ds, end).Some? && exists d | d in ds :: d.day == Nearest(ds, end)
  {
    if |ds| > 0 {
      assert ds == [ds[0]] + ds[1..];
      NearestIsEarliest(ds[1..], end);
      NearestIsEarliest(ds[1..], None);
      if d :| d in ds && d.day.Some? {
        if ds[0].day.None? {
          assert d in ds[1..];
        } else if Nearest(ds[1..], None).Some? {
          assert exists x | x in ds[1..] :: x.day.Some?;
        }
      }
    }
  }

  /** The performance record names the topic `key`. */
  predicate Rates(p: Performance, key: string) { !Blank(p.topic) && Fold(Strip(p.topic)) == key }

  /** The mastery of the last record of a topic, none when it has no record. */
  function LastRating(ps: seq<Performance>, key: string): Option<real> {
    if |ps| == 0 then None
    else
      var p := ps[|ps| - 1];
      if Rates(p, key) then Some(if p.level > 1.0 then p.level / 100.0 else p.level)
      else LastRating(ps[..|ps| - 1], key)
  }

  lemma {:induction false} ExactAfterUpsert(table: seq<(string, real)>, key: string, value: real, other: string)
    ensures Exact(Upsert(table, key, value), other) == if other == key then Some(value) else Exact(table, other)
  {
    if |table| > 0 {
      ExactAfterUpsert(table[1..], key, value, other);
      assert ([table[0]] + Upsert(table[1..], key, value))[1..] == Upsert(table[1..], key, value);
      assert ([(key, value)] + table[1..])[1..] == table[1..];
    }
  }

  lemma {:induction false} ExactIsLastRating(ps: seq<Performance>, key: string)
    ensures Exact(MasteryTable(ps), key) == LastRating(ps, key)
  {
    if |ps| > 0 {
      var front, p := ps[..|ps| - 1], ps[|ps| - 1];
      ExactIsLastRating(front, key);
      if !Blank(p.topic) { ExactAfterUpsert(MasteryTable(front), Fold(Strip(p.topic)), Mastery(p.level), key); }
    }
  }

  /** One of two texts occurs in the other. */
  predicate Overlaps(a: string, b: string) { Contains(a, b) || Contains(b, a) }

  /** The overlapping entry that is found is the one a lookup under its own key finds. */
  lemma {:induction false} OverlappingIsExact(table: seq<(string, real)>, key: string)
    ensures Overlapping(table, key).Some? ==>
              exists k :: Overlaps(k, key) && Exact(table, k) == Overlapping(table, key)
    ensures forall k | Overlaps(k, key) && Exact(table, k).Some? :: Overlapping(table, key).Some?
  {
    if |table| > 0 {
      OverlappingIsExact(table[1..], key);
      if Overlaps(table[0].0, key) {
        assert Exact(table, table[0].0) == Some(table[0].1);
      } else if Overlapping(table, key).Some? {
        var k :| Overlaps(k, key) && Exact(table[1..], k) == Overlapping(table, key);
        assert Exact(table, k) == Exact(table[1..], k);
      }
    }
  }

  /** The mastery of a title is the last rating of its own topic; without one, the last rating of some rated topic that
      contains it or is contained in it; without any such topic it has none. */
  lemma MasteryApplies(course: Course, title: string)
    ensures var key, ps := Fold(Strip(title)), course.performance;
            (key == "" ==> MasteryFor(course, title).None?) &&
            (key != "" && LastRating(ps, key).Some? ==> MasteryFor(course, title) == LastRating(ps, key)) &&
            (key != "" && LastRating(ps, key).None? ==>
               (MasteryFor(course, title).Some? <==> exists k :: Overlaps(k, key) && LastRating(ps, k).Some?) &&
               (MasteryFor(course, title).Some? ==>
                  exists k :: Overlaps(k, key) && MasteryFor(course, title) == LastRating(ps, k)))
  {
    var key, ps := Fold(Strip(title)), course.performance;
    var table := MasteryTable(ps);
    ExactIsLastRating(ps, key);
    OverlappingIsExact(table, key);
    forall k ensures Exact(table, k) == LastRating(ps, k) { ExactIsLastRating(ps, k); }
  }

  /** The last document a folded title studies. */
  function LastDocument(ms: seq<Material>, key: string): Option<Material> {
    if |ms| == 0 then None
    else
      var m := ms[|ms| - 1];
      if key == Fold(Strip(m.title)) || key == Fold("Study " + Strip(m.title)) then Some(m)
      else LastDocument(ms[..|ms| - 1], key)
  }

  /** A title takes its page count from the last document it names or studies. */
  lemma {:induction false} LengthOfLastDocument(ms: seq<Material>, key: string)
    ensures key in Lengths(ms) <==> LastDocument(ms, key).Some?
    ensures key in Lengths(ms) ==> Lengths(ms)[key] == LastDocument(ms, key).value.length
  {
    if |ms| > 0 { LengthOfLastDocument(ms[..|ms| - 1], key); }
  }

  // ---- Carried-over work ----

  /** A task of the current plan that counts towards the work `key`: it has a title, and its work is not done. */
  predicate Carries(t: PlanTask, done: seq<string>, key: string) { Grouped(t, done) && KeyOf(t) == key }

  function CarriedTasks(tasks: seq<PlanTask>, done: seq<string>, key: string): nat {
    Count((t: PlanTask) => Carries(t, done, key), tasks)
  }

  /** The first task of a piece of work. */
  function FirstCarried(tasks: seq<PlanTask>, done: seq<string>, key: string): Option<PlanTask> {
    if |tasks| == 0 then None
    else
      var front := FirstCarried(tasks[..|tasks| - 1], done, key);
      if front.Some? then front
      else if Carries(tasks[|tasks| - 1], done, key) then Some(tasks[|tasks| - 1]) else None
  }

  /** A group stands for all tasks of its work: it counts them, and keeps the first. */
  ghost predicate StandsFor(g: Group, tasks: seq<PlanTask>, done: seq<string>) {
    g.sessions == CarriedTasks(tasks, done, Fold(g.title)) && g.title == BaseTitle(g.task.title) &&
    FirstCarried(tasks, done, Fold(g.title)) == Some(g.task)
  }

  lemma {:induction false} AddedGroup(groups: seq<Group>, title: string, task: PlanTask, g: Group)
    requires DistinctGroups(groups)
    ensures var more := AddToGroup(groups, title, task);
            g in more <==>
            (g in groups && Fold(g.title) != Fold(title)) ||
            (exists h | h in groups :: Fold(h.title) == Fold(title) && g == h.(sessions := h.sessions + 1)) ||
            (g == Group(title, 1, task) && Fold(title) !in GroupKeys(groups))
  {
    if |groups| > 0 {
      var g0, rest := groups[0], groups[1..];
      assert groups == [g0] + rest;
      forall h | h in rest ensures Fold(h.title) != Fold(g0.title) {
        var i :| 0 <= i < |rest| && rest[i] == h;
        assert groups[i + 1] == h;
      }
      GroupKeysCons(g0, rest);
      if Fold(g0.title) == Fold(title) {
        assert AddToGroup(groups, title, task) == [g0.(sessions := g0.sessions + 1)] + rest;
      } else {
        AddedGroup(rest, title, task, g);
        assert AddToGroup(groups, title, task) == [g0] + AddToGroup(rest, title, task);
      }
    }
  }

  lemma CarriedSnoc(front: seq<PlanTask>, t: PlanTask, done: seq<string>, key: string)
    ensures CarriedTasks(front + [t], done, key) ==
            CarriedTasks(front, done, key) + if Carries(t, done, key) then 1 else 0
    ensures FirstCarried(front + [t], done, key) ==
            if FirstCarried(front, done, key).Some? then FirstCarried(front, done, key)
            else if Carries(t, done, key) then Some(t) else None
  {
    CountSnoc((x: PlanTask) => Carries(x, done, key), front, t);
    assert (front + [t])[..|front|] == front;
  }

  lemma {:induction false} NoneCarried(tasks: seq<PlanTask>, done: seq<string>, key: string)
    ensures FirstCarried(tasks, done, key).None? <==> CarriedTasks(tasks, done, key) == 0
  {
    if |tasks| > 0 {
      var front, t := tasks[..|tasks| - 1], tasks[|tasks| - 1];
      NoneCarried(front, done, key);
      CarriedSnoc(front, t, done, key);
      assert tasks == front + [t];
    }
  }

  /** The groups of a plan are its pieces of unfinished work, one for each, and each stands for all its tasks. */
  lemma {:induction false} GroupsStandForTasks(tasks: seq<PlanTask>, done: seq<string>)
    ensures DistinctGroups(Groups(tasks, done))
    ensures forall g | g in Groups(tasks, done) :: StandsFor(g, tasks, done)
    ensures forall key :: key in GroupKeys(Groups(tasks, done)) <==> CarriedTasks(tasks, done, key) > 0
  {
    if |tasks| > 0 {
      var front, t := tasks[..|tasks| - 1], tasks[|tasks| - 1];
      var groups, title := Groups(front, done), BaseTitle(t.title);
      GroupsStandForTasks(front, done);
      assert tasks == front + [t];
      forall key ensures CarriedTasks(tasks, done, key) ==
                         CarriedTasks(front, done, key) + if Carries(t, done, key) then 1 else 0
      {
        CarriedSnoc(front, t, done, key);
      }
      if Grouped(t, done) {
        AddToGroupDistinct(groups, title, t);
        AddToGroupKeys(groups, title, t);
      }
      forall g | g in Groups(tasks, done) ensures StandsFor(g, tasks, done) { GroupStep(front, t, done, g); }
    }
  }

  lemma GroupStep(front: seq<PlanTask>, t: PlanTask, done: seq<string>, g: Group)
    requires DistinctGroups(Groups(front, done)) && forall h | h in Groups(front, done) :: StandsFor(h, front, done)
    requires forall key :: key in GroupKeys(Groups(front, done)) <==> CarriedTasks(front, done, key) > 0
    requires g in Groups(front + [t], done)
    ensures StandsFor(g, front + [t], done)
  {
    var groups, title, key := Groups(front, done), BaseTitle(t.title), Fold(g.title);
    assert (front + [t])[..|front|] == front;
    CarriedSnoc(front, t, done, key);
    NoneCarried(front, done, key);
    if Grouped(t, done) { AddedGroup(groups, title, t, g); }
  }

  // ---- Every draft has a reason ----

  /** What a draft owes to its course: the task, deadline, document or rating it comes from, its size and its date. */
  ghost predicate Justified(d: Draft, course: Course, end: Option<int>) {
    var nearest := Nearest(course.deadlines, end);
    match d.reason
    case RemainingTask =>
      var n := CarriedTasks(course.remaining, Done(course), Fold(d.title));
      var studied := LastDocument(course.materials, Fold(d.title));
      n > 0 && d.length == (if studied.Some? then studied.value.length else None) &&
      d.mastery == MasteryFor(course, d.title) && d.effort == Max(n, EffortUnits(d.length, d.mastery)) &&
      var first := FirstCarried(course.remaining, Done(course), Fold(d.title));
      first.Some? && d.title == BaseTitle(first.value.title) &&
      d.deadline == if first.value.day.Some? then first.value.day else nearest
    case AssessmentPrep =>
      exists x | x in course.deadlines ::
        !Blank(x.title) && d.title == "Prepare for " + Strip(x.title) &&
        d.deadline == (if x.day.Some? then x.day else nearest) &&
        d.mastery == MasteryFor(course, Strip(x.title)) && d.effort == Max(2, EffortUnits(None, d.mastery))
    case MaterialNotCompleted =>
      d.deadline == nearest && d.effort == EffortUnits(d.length, d.mastery) &&
      exists m | m in course.materials ::
        d.title == "Study " + Strip(m.title) && d.length == m.length &&
        d.mastery == MasteryFor(course, Strip(m.title)) && !IsCompleted(Strip(m.title), Done(course))
    case MasteryGap =>
      d.deadline == nearest && d.effort == EffortUnits(None, d.mastery) &&
      exists p | p in course.performance ::
        !Blank(p.topic) && d.title == "Review " + Strip(p.topic) &&
        d.mastery == Some(if p.level > 1.0 then p.level / 100.0 else p.level) && d.mastery.value < 0.7 &&
        !IsCompleted(Strip(p.topic), Done(course))
  }

  lemma {:induction false} PrepsJustified(ds: seq<Deadline>, seen: set<string>, course: Course, name: string,
                                          end: Option<int>)
    requires forall x | x in ds :: x in course.deadlines
    ensures forall d | d in Preps(ds, seen, course, name, end) :: Justified(d, course, end)
  {
    if |ds| > 0 {
      var x := ds[|ds| - 1];
      PrepsJustified(ds[..|ds| - 1], seen, course, name, end);
      assert x in ds;
      if !Blank(x.title) { assert Justified(PrepDraft(x, course, name, end), course, end); }
    }
  }

  lemma {:induction false} StudiesJustified(ms: seq<Material>, seen: set<string>, course: Course, end: Option<int>)
    requires forall m | m in ms :: m in course.materials
    ensures forall d | d in Studies(ms, seen, course, end) :: Justified(d, course, end)
  {
    if |ms| > 0 {
      var m := ms[|ms| - 1];
      StudiesJustified(ms[..|ms| - 1], seen, course, end);
      assert m in ms;
      if !IsCompleted(Strip(m.title), Done(course)) { assert Justified(StudyDraft(m, course, end), course, end); }
    }
  }

  lemma {:induction false} ReviewsJustified(ps: seq<Performance>, seen: set<string>, course: Course, end: Option<int>)
    requires forall p | p in ps :: p in course.performance
    ensures forall d | d in Reviews(ps, seen, course, end) :: Justified(d, course, end)
  {
    if |ps| > 0 {
      var p := ps[|ps| - 1];
      ReviewsJustified(ps[..|ps| - 1], seen, course, end);
      assert p in ps;
      if NeedsReview(p, Done(course), seen) { assert Justified(ReviewDraft(p, course, end), course, end); }
    }
  }

  /** Nothing else is scheduled: every draft of a course is justified by it. */
  lemma DraftsJustified(course: Course, name: string, end: Option<int>)
    ensures forall d | d in Drafts(course, name, end) :: Justified(d, course, end)
  {
    var groups := Groups(course.remaining, Done(course));
    var seen := GroupKeys(groups);
    var preps := Preps(course.deadlines, seen, course, name, end);
    GroupsStandForTasks(course.remaining, Done(course));
    PrepsJustified(course.deadlines, seen, course, name, end);
    StudiesJustified(course.materials, seen + Titles(preps), course, end);
    ReviewsJustified(course.performance, seen + Titles(preps), course, end);
    forall d | d in GroupDrafts(groups, course, end) ensures Justified(d, course, end) {
      var i :| 0 <= i < |groups| && d == GroupDraft(groups[i], course, end);
      GroupJustified(groups[i], course, end);
    }
  }

  lemma GroupJustified(g: Group, course: Course, end: Option<int>)
    requires StandsFor(g, course.remaining, Done(course))
    ensures Justified(GroupDraft(g, course, end), course, end)
  {
    NoneCarried(course.remaining, Done(course), Fold(g.title));
    LengthOfLastDocument(course.materials, Fold(g.title));
  }

  // ---- Nothing is forgotten ----

  lemma {:induction false} SourcesCover(course: Course)
    ensures forall d | d in course.deadlines && !Blank(d.title) ::
              Fold("Prepare for " + Strip(d.title)) in PrepKeys(course.deadlines)
    ensures forall m | m in course.materials && !IsCompleted(Strip(m.title), Done(course)) ::
              Fold("Study " + Strip(m.title)) in StudyKeys(course.materials, Done(course))
    ensures forall p | p in course.performance && !Blank(p.topic) && Mastery(p.level) < 0.7 &&
                       !IsCompleted(Strip(p.topic), Done(course)) ::
              Fold("Review " + Strip(p.topic)) in ReviewKeys(course.performance, Done(course))
  {
    forall d | d in course.deadlines && !Blank(d.title)
      ensures Fold("Prepare for " + Strip(d.title)) in PrepKeys(course.deadlines)
    {
      PrepCovered(course.deadlines, d);
    }
    forall m | m in course.materials && !IsCompleted(Strip(m.title), Done(course))
      ensures Fold("Study " + Strip(m.title)) in StudyKeys(course.materials, Done(course))
    {
      StudyCovered(course.materials, Done(course), m);
    }
    forall p | p in course.performance && !Blank(p.topic) && Mastery(p.level) < 0.7 &&
               !IsCompleted(Strip(p.topic), Done(course))
      ensures Fold("Review " + Strip(p.topic)) in ReviewKeys(course.performance, Done(course))
    {
      ReviewCovered(course.performance, Done(course), p);
    }
  }

  lemma {:induction false} PrepCovered(ds: seq<Deadline>, d: Deadline)
    requires d in ds && !Blank(d.title)
    ensures Fold("Prepare for " + Strip(d.title)) in PrepKeys(ds)
  {
    if ds[|ds| - 1] != d {
      assert ds == ds[..|ds| - 1] + [ds[|ds| - 1]];
      PrepCovered(ds[..|ds| - 1], d);
    }
  }

  lemma {:induction false} StudyCovered(ms: seq<Material>, done: seq<string>, m: Material)
    requires m in ms && !IsCompleted(Strip(m.title), done)
    ensures Fold("Study " + Strip(m.title)) in StudyKeys(ms, done)
  {
    if ms[|ms| - 1] != m {
      assert ms == ms[..|ms| - 1] + [ms[|ms| - 1]];
      StudyCovered(ms[..|ms| - 1], done, m);
    }
  }

  lemma {:induction false} ReviewCovered(ps: seq<Performance>, done: seq<string>, p: Performance)
    requires p in ps && !Blank(p.topic) && Mastery(p.level) < 0.7 && !IsCompleted(Strip(p.topic), done)
    ensures Fold("Review " + Strip(p.topic)) in ReviewKeys(ps, done)
  {
    if ps[|ps| - 1] != p {
      assert ps == ps[..|ps| - 1] + [ps[|ps| - 1]];
      ReviewCovered(ps[..|ps| - 1], done, p);
    }
  }

  lemma GroupDraftTitles(groups: seq<Group>, course: Course, end: Option<int>)
    ensures Titles(GroupDrafts(groups, course, end)) == GroupKeys(groups)
  {
    var drafts := GroupDrafts(groups, course, end);
    forall g | g in groups ensures Fold(g.title) in Titles(drafts) {
      var i :| 0 <= i < |groups| && groups[i] == g;
      assert drafts[i].title == g.title && drafts[i] in drafts;
    }
    forall d | d in drafts ensures Fold(d.title) in GroupKeys(groups) {
      var i :| 0 <= i < |drafts| && drafts[i] == d;
      assert groups[i] in groups;
    }
  }

  /** Nothing a course calls for is forgotten: some draft carries the folded title of every unfinished task of its
      plan, of the preparation for every titled deadline, of every unfinished document and of every weak topic. */
  lemma NothingForgotten(course: Course, name: string, end: Option<int>)
    ensures var titles := Titles(Drafts(course, name, end));
            (forall t | t in course.remaining && Grouped(t, Done(course)) :: Fold(BaseTitle(t.title)) in titles) &&
            (forall d | d in course.deadlines && !Blank(d.title) :: Fold("Prepare for " + Strip(d.title)) in titles) &&
            (forall m | m in course.materials && !IsCompleted(Strip(m.title), Done(course)) ::
               Fold("Study " + Strip(m.title)) in titles) &&
            forall p | p in course.performance && !Blank(p.topic) && Mastery(p.level) < 0.7 &&
                       !IsCompleted(Strip(p.topic), Done(course)) ::
              Fold("Review " + Strip(p.topic)) in titles
  {
    var groups := Groups(course.remaining, Done(course));
    GroupsStandForTasks(course.remaining, Done(course));
    GroupDraftTitles(groups, course, end);
    FreshTitles(course, name, end, GroupKeys(groups));
    TitlesAppend(GroupDrafts(groups, course, end), Fresh(course, name, end, GroupKeys(groups)));
    SourcesCover(course);
    forall t | t in course.remaining && Grouped(t, Done(course)) ensures Fold(BaseTitle(t.title)) in GroupKeys(groups) {
      TaskIsCarried(course.remaining, Done(course), t);
    }
  }

  lemma {:induction false} TaskIsCarried(tasks: seq<PlanTask>, done: seq<string>, t: PlanTask)
    requires t in tasks && Grouped(t, done)
    ensures CarriedTasks(tasks, done, KeyOf(t)) > 0
  {
    var front, last := tasks[..|tasks| - 1], tasks[|tasks| - 1];
    assert tasks == front + [last];
    CarriedSnoc(front, last, done, KeyOf(t));
    if last != t { TaskIsCarried(front, done, t); }
  }

  /** Every titled deadline becomes an assessment of its course, on its own date, and nothing else does. */
  lemma {:induction false} AssessmentsAreDeadlines(ds: seq<Deadline>, name: string, a: Assessment)
    ensures a in Assessments(ds, name) <==>
            exists d | d in ds :: !Blank(d.title) && a == Assessment(name, Strip(d.title), AssessmentKind(d), d.day)
  {
    if |ds| > 0 {
      AssessmentsAreDeadlines(ds[..|ds| - 1], name, a);
      assert ds == ds[..|ds| - 1] + [ds[|ds| - 1]];
    }
  }
}
