/** Gathering everything worth scheduling from the courses, sized by pages and mastery. */
module Candidates {
  import opened Prelude
  import opened Text
  import opened Effort
  import opened Sessions
  import opened Assembly

  const MASTERY_TARGET := 0.7

  datatype Material = Material(title: string, length: Option<int>)

  datatype Deadline = Deadline(title: string, day: Option<int>, kind: string)

  datatype Performance = Performance(topic: string, level: real, notes: string)

  /** A task of the current plan. */
  datatype PlanTask = PlanTask(title: string, description: string, day: Option<int>)

  /** One course: what it contains, what is done, and what the current plan still holds. */
  datatype Course = Course(
    name: string, materials: seq<Material>, deadlines: seq<Deadline>, performance: seq<Performance>,
    completedTopics: seq<string>, completedTasks: seq<string>, remaining: seq<PlanTask>)

  /** A candidate before it is numbered. */
  datatype Draft = Draft(title: string, description: string, deadline: Option<int>, reason: Reason,
                         mastery: Option<real>, length: Option<int>, effort: int)

  function CourseName(course: Course, index: nat): string {
    if course.name == "" then "Course " + Dec(index + 1) else course.name
  }

  function Done(course: Course): seq<string> { course.completedTopics + course.completedTasks }

  predicate IsCompleted(title: string, done: seq<string>) {
    exists k :: 0 <= k < |done| && Fold(BaseTitle(done[k])) == Fold(BaseTitle(title))
  }

  // ---- Sizing ----

  function Mastery(level: real): real { if level > 1.0 then level / 100.0 else level }

  /** Folded topic and mastery, in order of first appearance; a repeated topic keeps its place and takes the new
      value. */
  function MasteryTable(performance: seq<Performance>): seq<(string, real)> {
    if |performance| == 0 then []
    else
      var table, p := MasteryTable(performance[..|performance| - 1]), performance[|performance| - 1];
      if Blank(p.topic) then table else Upsert(table, Fold(Strip(p.topic)), Mastery(p.level))
  }

  function Upsert(table: seq<(string, real)>, key: string, value: real): seq<(string, real)> {
    if |table| == 0 then [(key, value)]
    else if table[0].0 == key then [(key, value)] + table[1..]
    else [table[0]] + Upsert(table[1..], key, value)
  }

  function Exact(table: seq<(string, real)>, key: string): Option<real> {
    if |table| == 0 then None else if table[0].0 == key then Some(table[0].1) else Exact(table[1..], key)
  }

  function Overlapping(table: seq<(string, real)>, key: string): Option<real> {
    if |table| == 0 then None
    else if Contains(table[0].0, key) || Contains(key, table[0].0) then Some(table[0].1)
    else Overlapping(table[1..], key)
  }

  /** The mastery that applies to a title, given its trimmed and folded form. */
  function MasteryOfKey(course: Course, key: string): Option<real> {
    if key == "" then None
    else
      var table := MasteryTable(course.performance);
      if Exact(table, key).Some? then Exact(table, key) else Overlapping(table, key)
  }

  function MasteryFor(course: Course, title: string): Option<real> { MasteryOfKey(course, Fold(Strip(title))) }

  /** Without quiz results no title has a mastery. */
  lemma Unrated(course: Course, key: string)
    requires course.performance == []
    ensures MasteryOfKey(course, key) == None
  {
    assert MasteryTable([]) == [];
    assert Exact([], key) == None && Overlapping([], key) == None;
  }

  /** Page counts by folded title, for each document and for the task that studies it; later documents win. */
  function Lengths(materials: seq<Material>): map<string, Option<int>> {
    if |materials| == 0 then map[]
    else
      var m := materials[|materials| - 1];
      var front := Lengths(materials[..|materials| - 1]);
      front[Fold(Strip(m.title)) := m.length][Fold("Study " + Strip(m.title)) := m.length]
  }

  function LengthOfKey(course: Course, key: string): Option<int> {
    var lengths := Lengths(course.materials);
    if key in lengths then lengths[key] else None
  }

  /** The effort a folded title deserves on its own. */
  function Expected(course: Course, key: string): int {
    EffortUnits(LengthOfKey(course, key), MasteryOfKey(course, key))
  }

  // ---- Earlier sessions collapse into groups ----

  /** Sessions of the current plan that share a folded base title; `task` is the first of them. */
  datatype Group = Group(title: string, sessions: nat, task: PlanTask)

  function AddToGroup(groups: seq<Group>, title: string, task: PlanTask): seq<Group> {
    if |groups| == 0 then [Group(title, 1, task)]
    else if Fold(groups[0].title) == Fold(title) then [groups[0].(sessions := groups[0].sessions + 1)] + groups[1..]
    else [groups[0]] + AddToGroup(groups[1..], title, task)
  }

  predicate Grouped(task: PlanTask, done: seq<string>) {
    BaseTitle(task.title) != "" && !IsCompleted(BaseTitle(task.title), done)
  }

  function Groups(tasks: seq<PlanTask>, done: seq<string>): seq<Group> {
    if |tasks| == 0 then []
    else
      var groups, t := Groups(tasks[..|tasks| - 1], done), tasks[|tasks| - 1];
      if Grouped(t, done) then AddToGroup(groups, BaseTitle(t.title), t) else groups
  }

  function GroupKeys(groups: seq<Group>): set<string> { set g | g in groups :: Fold(g.title) }

  // ---- Drafts ----

  /** The earliest dated deadline, or the end of the semester. */
  function Nearest(deadlines: seq<Deadline>, end: Option<int>): Option<int> {
    if |deadlines| == 0 then end
    else
      var rest := Nearest(deadlines[1..], None);
      if deadlines[0].day.None? then Nearest(deadlines[1..], end)
      else if rest.None? then deadlines[0].day
      else Some(Min(deadlines[0].day.value, rest.value))
  }

  function OrElse(a: Option<int>, b: Option<int>): Option<int> { if a.Some? then a else b }

  /** The text before the first focus note. */
  function BeforeFocus(text: string): string {
    if "Focus:" <= text || |text| == 0 then "" else [text[0]] + BeforeFocus(text[1..])
  }

  function BaseDescription(text: string): string { Strip(BeforeFocus(text)) }

  lemma {:induction false} BeforeFocusOf(text: string, note: string)
    requires !Contains("Focus:", text)
    ensures BeforeFocus(text + " Focus:" + note) == text + " "
  {
    var all := text + " Focus:" + note;
    if |text| == 0 {
      assert all[0] == ' ' && all[1..] == "Focus:" + note;
      assert BeforeFocus("Focus:" + note) == "";
    } else {
      assert all[1..] == text[1..] + " Focus:" + note;
      BeforeFocusOf(text[1..], note);
      NoFocusHere(text, note);
    }
  }

  /** A focus note cannot begin inside a text without one: the blank before it does not occur in the mark. */
  lemma NoFocusHere(text: string, note: string)
    requires |text| > 0 && !("Focus:" <= text)
    ensures !("Focus:" <= text + " Focus:" + note)
  {
    var all := text + " Focus:" + note;
    if |text| >= 6 {
      assert all[..6] == text[..6];
    } else {
      assert all[|text|] == ' ' && "Focus:"[|text|] != ' ';
    }
  }

  /** A focus note cannot compound: the description printed for a session leads back to the trimmed description of its
      work. */
  lemma FocusIsDropped(c: Candidate, s: Session)
    requires !Contains("Focus:", c.description)
    ensures BaseDescription(DescriptionFor(c, s)) == Strip(c.description)
  {
    var focus := Strip(s.focus);
    if focus != "" {
      BeforeFocusOf(c.description, " " + focus);
      assert DescriptionFor(c, s) == c.description + " Focus:" + (" " + focus);
      StripDropsTrailingSpace(c.description);
    } else {
      NoFocusAtAll(c.description);
    }
  }

  lemma {:induction false} NoFocusAtAll(text: string)
    requires !Contains("Focus:", text)
    ensures BeforeFocus(text) == text
  {
    if |text| > 0 { NoFocusAtAll(text[1..]); }
  }

  function GroupDraft(g: Group, course: Course, end: Option<int>): Draft {
    var key := Fold(g.title);
    var about := BaseDescription(g.task.description);
    Draft(g.title, if about != "" then about else "Continue " + g.title + ".",
          OrElse(g.task.day, Nearest(course.deadlines, end)), RemainingTask,
          MasteryFor(course, g.title), LengthOfKey(course, key),
          Max(g.sessions, EffortUnits(LengthOfKey(course, key), MasteryFor(course, g.title))))
  }

  function Titles(drafts: seq<Draft>): set<string> { set d | d in drafts :: Fold(d.title) }

  function PrepTitle(d: Deadline): string { "Prepare for " + Strip(d.title) }

  function PrepDraft(d: Deadline, course: Course, name: string, end: Option<int>): Draft {
    var mastery := MasteryFor(course, Strip(d.title));
    Draft(PrepTitle(d), "Work toward the " + name + " deadline.",
          OrElse(d.day, Nearest(course.deadlines, end)), AssessmentPrep, mastery, None,
          Max(2, EffortUnits(None, mastery)))
  }

  predicate NeedsPrep(d: Deadline, seen: set<string>) { !Blank(d.title) && Fold(PrepTitle(d)) !in seen }

  function Preps(ds: seq<Deadline>, seen: set<string>, course: Course, name: string, end: Option<int>): seq<Draft> {
    if |ds| == 0 then []
    else
      var front, d := Preps(ds[..|ds| - 1], seen, course, name, end), ds[|ds| - 1];
      if NeedsPrep(d, seen + Titles(front)) then front + [PrepDraft(d, course, name, end)] else front
  }

  function StudyTitle(m: Material): string { "Study " + Strip(m.title) }

  function StudyDraft(m: Material, course: Course, end: Option<int>): Draft {
    var topic := Strip(m.title);
    var mastery := MasteryFor(course, topic);
    var pages := if m.length.Some? && m.length.value != 0 then " (" + DecInt(m.length.value) + " pages)." else ".";
    Draft(StudyTitle(m), "Review the " + topic + " course material" + pages,
          Nearest(course.deadlines, end), MaterialNotCompleted, mastery, m.length, EffortUnits(m.length, mastery))
  }

  predicate NeedsStudy(m: Material, done: seq<string>, seen: set<string>) {
    !IsCompleted(Strip(m.title), done) && Fold(StudyTitle(m)) !in seen
  }

  function Studies(ms: seq<Material>, seen: set<string>, course: Course, end: Option<int>): seq<Draft> {
    if |ms| == 0 then []
    else
      var front, m := Studies(ms[..|ms| - 1], seen, course, end), ms[|ms| - 1];
      if NeedsStudy(m, Done(course), seen) then front + [StudyDraft(m, course, end)] else front
  }

  function ReviewTitle(p: Performance): string { "Review " + Strip(p.topic) }

  function ReviewDraft(p: Performance, course: Course, end: Option<int>): Draft {
    var mastery := Some(Mastery(p.level));
    Draft(ReviewTitle(p),
          if p.notes != "" then p.notes else "Revisit " + Strip(p.topic) + " before the next assessment.",
          Nearest(course.deadlines, end), MasteryGap, mastery, None, EffortUnits(None, mastery))
  }

  predicate NeedsReview(p: Performance, done: seq<string>, seen: set<string>) {
    !Blank(p.topic) && Mastery(p.level) < MASTERY_TARGET &&
    !IsCompleted(Strip(p.topic), done) && Fold(ReviewTitle(p)) !in seen
  }

  function Reviews(ps: seq<Performance>, seen: set<string>, course: Course, end: Option<int>): seq<Draft> {
    if |ps| == 0 then []
    else
      var front, p := Reviews(ps[..|ps| - 1], seen, course, end), ps[|ps| - 1];
      if NeedsReview(p, Done(course), seen) then front + [ReviewDraft(p, course, end)] else front
  }

  function GroupDrafts(groups: seq<Group>, course: Course, end: Option<int>): seq<Draft> {
    seq(|groups|, i requires 0 <= i < |groups| => GroupDraft(groups[i], course, end))
  }

  /** Work not carried over from the current plan, given the titles that plan already has. */
  function Fresh(course: Course, name: string, end: Option<int>, seen: set<string>): seq<Draft> {
    var preps := Preps(course.deadlines, seen, course, name, end);
    var known := seen + Titles(preps);
    preps + Studies(course.materials, known, course, end) + Reviews(course.performance, known, course, end)
  }

  function Drafts(course: Course, name: string, end: Option<int>): seq<Draft> {
    var groups := Groups(course.remaining, Done(course));
    GroupDrafts(groups, course, end) + Fresh(course, name, end, GroupKeys(groups))
  }

  // ---- Numbered candidates ----

  function CandidateId(position: nat): string { "c" + Dec(position + 1) }

  function Stamp(d: Draft, position: nat, course: nat, name: string): Candidate {
    Candidate(CandidateId(position), course, name, d.title, d.description, d.deadline, d.reason, d.mastery, d.length,
              d.effort, 0.0)
  }

  function StampAll(drafts: seq<Draft>, offset: nat, course: nat, name: string): seq<Candidate> {
    seq(|drafts|, i requires 0 <= i < |drafts| => Stamp(drafts[i], offset + i, course, name))
  }

  function Collected(courses: seq<Course>, end: Option<int>): seq<Candidate> {
    if |courses| == 0 then []
    else
      var n := |courses| - 1;
      var front, name := Collected(courses[..n], end), CourseName(courses[n], n);
      front + StampAll(Drafts(courses[n], name, end), |front|, n, name)
  }

  // ---- Assessments ----

  function AssessmentKind(d: Deadline): string {
    var text := Fold(Strip(d.title)) + " " + Fold(Strip(d.kind));
    if Contains("quiz", text) then "quiz"
    else if Contains("exam", text) || Contains("midterm", text) || Contains("mid-term", text) || Contains("final", text)
    then "exam" else "assessment"
  }

  function Assessments(ds: seq<Deadline>, name: string): seq<Assessment> {
    if |ds| == 0 then []
    else
      var front, d := Assessments(ds[..|ds| - 1], name), ds[|ds| - 1];
      if Blank(d.title) then front else front + [Assessment(name, Strip(d.title), AssessmentKind(d), d.day)]
  }

  function AllAssessments(courses: seq<Course>): seq<Assessment> {
    if |courses| == 0 then []
    else
      var n := |courses| - 1;
      AllAssessments(courses[..n]) + Assessments(courses[n].deadlines, CourseName(courses[n], n))
  }

  // ---- The collecting loops ----

  method GroupTasks(tasks: seq<PlanTask>, done: seq<string>) returns (groups: seq<Group>)
    ensures groups == Groups(tasks, done)
  {
    groups := [];
    for i := 0 to |tasks|
      invariant groups == Groups(tasks[..i], done)
    {
      assert tasks[..i + 1][..i] == tasks[..i];
      var title := BaseTitle(tasks[i].title);
      if title != "" && !IsCompleted(title, done) {
        groups := AddToGroup(groups, title, tasks[i]);
      }
    }
    assert tasks[..|tasks|] == tasks;
  }

  lemma TitlesSnoc(drafts: seq<Draft>, d: Draft)
    ensures Titles(drafts + [d]) == Titles(drafts) + {Fold(d.title)}
  {
    assert forall x :: x in drafts + [d] <==> x in drafts || x == d;
  }

  method CollectPreps(course: Course, name: string, end: Option<int>, planned: set<string>)
    returns (drafts: seq<Draft>, assessed: seq<Assessment>, seen: set<string>)
    ensures drafts == Preps(course.deadlines, planned, course, name, end)
    ensures assessed == Assessments(course.deadlines, name) && seen == planned + Titles(drafts)
  {
    var ds := course.deadlines;
    drafts, assessed, seen := [], [], planned;
    for i := 0 to |ds|
      invariant drafts == Preps(ds[..i], planned, course, name, end)
      invariant assessed == Assessments(ds[..i], name) && seen == planned + Titles(drafts)
    {
      var d := ds[i];
      assert ds[..i + 1][..i] == ds[..i];
      if !Blank(d.title) {
        assessed := assessed + [Assessment(name, Strip(d.title), AssessmentKind(d), d.day)];
        if Fold(PrepTitle(d)) !in seen {
          seen := seen + {Fold(PrepTitle(d))};
          TitlesSnoc(drafts, PrepDraft(d, course, name, end));
          drafts := drafts + [PrepDraft(d, course, name, end)];
        }
      }
    }
    assert ds[..|ds|] == ds;
  }

  method CollectStudies(course: Course, end: Option<int>, seen: set<string>) returns (drafts: seq<Draft>)
    ensures drafts == Studies(course.materials, seen, course, end)
  {
    var ms := course.materials;
    drafts := [];
    for i := 0 to |ms|
      invariant drafts == Studies(ms[..i], seen, course, end)
    {
      assert ms[..i + 1][..i] == ms[..i];
      if !IsCompleted(Strip(ms[i].title), Done(course)) && Fold(StudyTitle(ms[i])) !in seen {
        drafts := drafts + [StudyDraft(ms[i], course, end)];
      }
    }
    assert ms[..|ms|] == ms;
  }

  method CollectReviews(course: Course, end: Option<int>, seen: set<string>) returns (drafts: seq<Draft>)
    ensures drafts == Reviews(course.performance, seen, course, end)
  {
    var ps := course.performance;
    drafts := [];
    for i := 0 to |ps|
      invariant drafts == Reviews(ps[..i], seen, course, end)
    {
      assert ps[..i + 1][..i] == ps[..i];
      if NeedsReview(ps[i], Done(course), seen) {
        drafts := drafts + [ReviewDraft(ps[i], course, end)];
      }
    }
    assert ps[..|ps|] == ps;
  }

  method CollectGroups(course: Course, end: Option<int>) returns (drafts: seq<Draft>, keys: set<string>)
    ensures drafts == GroupDrafts(Groups(course.remaining, Done(course)), course, end)
    ensures keys == GroupKeys(Groups(course.remaining, Done(course)))
  {
    var groups := GroupTasks(course.remaining, Done(course));
    keys := GroupKeys(groups);
    drafts := [];
    for i := 0 to |groups|
      invariant |drafts| == i && forall k | 0 <= k < i :: drafts[k] == GroupDraft(groups[k], course, end)
    {
      drafts := drafts + [GroupDraft(groups[i], course, end)];
    }
    assert drafts == GroupDrafts(groups, course, end);
  }

  method CollectCourse(course: Course, name: string, end: Option<int>)
    returns (drafts: seq<Draft>, assessed: seq<Assessment>)
    ensures drafts == Drafts(course, name, end) && assessed == Assessments(course.deadlines, name)
  {
    var carried, planned := CollectGroups(course, end);
    var preps, found, seen := CollectPreps(course, name, end, planned);
    var studies := CollectStudies(course, end, seen);
    var reviews := CollectReviews(course, end, seen);
    drafts, assessed := carried + (preps + studies + reviews), found;
  }

  method CollectCandidates(courses: seq<Course>, end: Option<int>)
    returns (candidates: seq<Candidate>, assessed: seq<Assessment>)
    ensures candidates == Collected(courses, end) && assessed == AllAssessments(courses)
  {
    candidates, assessed := [], [];
    for n := 0 to |courses|
      invariant candidates == Collected(courses[..n], end) && assessed == AllAssessments(courses[..n])
    {
      assert courses[..n + 1][..n] == courses[..n];
      var name := CourseName(courses[n], n);
      var drafts, found := CollectCourse(courses[n], name, end);
      candidates := candidates + StampAll(drafts, |candidates|, n, name);
      assessed := assessed + found;
    }
    assert courses[..|courses|] == courses;
  }

  // ---- Ids and courses ----

  lemma IdsDiffer(i: nat, j: nat)
    requires i != j
    ensures CandidateId(i) != CandidateId(j)
  {
    DecRoundTrip(i + 1);
    DecRoundTrip(j + 1);
    assert CandidateId(i)[1..] == Dec(i + 1) && CandidateId(j)[1..] == Dec(j + 1);
  }

  lemma {:induction false} CollectedPositions(courses: seq<Course>, end: Option<int>, k: nat)
    requires k < |Collected(courses, end)|
    ensures Collected(courses, end)[k].id == CandidateId(k) && Collected(courses, end)[k].course < |courses|
  {
    var n := |courses| - 1;
    var front, name := Collected(courses[..n], end), CourseName(courses[n], n);
    var stamped := StampAll(Drafts(courses[n], name, end), |front|, n, name);
    assert Collected(courses, end) == front + stamped;
    if k < |front| {
      CollectedPositions(courses[..n], end, k);
    } else {
      assert Collected(courses, end)[k] == stamped[k - |front|];
    }
  }

  /** Every collected candidate has its own id and belongs to one of the courses. */
  lemma CollectedIdsDistinct(courses: seq<Course>, end: Option<int>)
    ensures DistinctIds(Collected(courses, end))
    ensures forall c | c in Collected(courses, end) :: c.course < |courses|
  {
    var cs := Collected(courses, end);
    forall k | 0 <= k < |cs| ensures cs[k].id == CandidateId(k) && cs[k].course < |courses| {
      CollectedPositions(courses, end, k);
    }
    forall i, j | 0 <= i < j < |cs| ensures cs[i].id != cs[j].id { IdsDiffer(i, j); }
  }
}
