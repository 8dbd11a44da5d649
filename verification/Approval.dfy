/** Approving a plan: the upserts applied to the task table, once and then again. */
module Approval {
  import opened Prelude
  import opened Assembly
  import opened Calendar
  import opened TaskStore

  // ---- One event ----

  function TargetOf(e: Upsert, newId: string): string { if e.id.Some? then e.id.value else newId }

  /** The task an event leaves behind. */
  function Content(e: Upsert, id: string): StudyTask {
    StudyTask(id, e.course, e.title, e.notes, e.startAt, e.endAt, Todo, Supervisor)
  }

  function Apply(table: Table, e: Upsert, newId: string): Table {
    table[TargetOf(e, newId) := Content(e, TargetOf(e, newId))]
  }

  function ApplyAll(table: Table, events: seq<Upsert>, ids: seq<string>): Table
    requires |ids| == |events|
  {
    if |events| == 0 then table
    else
      var n := |events| - 1;
      Apply(ApplyAll(table, events[..n], ids[..n]), events[n], ids[n])
  }

  class Store {
    var tasks: Table
    const courses: set<string>

    constructor (courses: set<string>)
      ensures tasks == map[] && this.courses == courses
    {
      this.courses := courses;
      tasks := map[];
    }

    predicate Accepts(e: Upsert) { (e.course.Some? ==> e.course.value in courses) && e.startAt < e.endAt }

    /** A known id updates its task, any other creates one; an unknown course or an empty range changes nothing. */
    method ApplyEvent(e: Upsert, newId: string) returns (ok: bool)
      modifies this
      ensures ok <==> Accepts(e)
      ensures ok <==> (e.course.Some? ==> e.course.value in courses) && e.startAt < e.endAt
      ensures tasks == if ok then Apply(old(tasks), e, newId) else old(tasks)
    {
      if e.course.Some? && e.course.value !in courses { return false; }
      if e.endAt <= e.startAt { return false; }
      var id := if e.id.Some? then e.id.value else newId;
      var task := if id in tasks then tasks[id] else StudyTask(id, None, "Study task", "", 0, 0, Todo, Supervisor);
      task := task.(id := id, course := e.course, title := e.title, notes := e.notes);
      task := task.(startAt := e.startAt, endAt := e.endAt, status := Todo, origin := Supervisor);
      tasks := tasks[id := task];
      return true;
    }

    /** The events of an approval, in order; the first rejected one ends it. */
    method Approve(events: seq<Upsert>, ids: seq<string>) returns (written: nat)
      requires |ids| == |events|
      modifies this
      ensures written <= |events| && tasks == ApplyAll(old(tasks), events[..written], ids[..written])
      ensures forall k | 0 <= k < written :: Accepts(events[k])
      ensures written < |events| ==> !Accepts(events[written])
    {
      written := 0;
      while written < |events|
        invariant written <= |events| && tasks == ApplyAll(old(tasks), events[..written], ids[..written])
        invariant forall k | 0 <= k < written :: Accepts(events[k])
      {
        var ok := ApplyEvent(events[written], ids[written]);
        if !ok { return; }
        assert events[..written + 1][..written] == events[..written] && ids[..written + 1][..written] == ids[..written];
        written := written + 1;
      }
    }
  }

  // ---- Approving against a snapshot of the table ----

  /** The identifiers handed out are new to the table and differ from each other. */
  ghost predicate NewIds(ids: seq<string>, table: Table) {
    (forall k | 0 <= k < |ids| :: ids[k] !in table) && forall j, k | 0 <= j < k < |ids| :: ids[j] != ids[k]
  }

  /** One approval of a plan: `rows` lists the table when the snapshot is taken. */
  ghost predicate Approves(before: Table, rows: seq<StudyTask>, pairs: seq<Item>, courses: seq<CourseRef>,
                           ids: seq<string>, after: Table)
  {
    Keyed(before) && Lists(rows, before) && |ids| == |pairs| && NewIds(ids, before) &&
    after == ApplyAll(before, Events(pairs, Snapshot(courses, rows)), ids)
  }

  /** Events an approval would write, given what the table looks like. */
  ghost predicate Faithful(events: seq<Upsert>, before: Table) {
    forall k | 0 <= k < |events| && events[k].id.Some? ::
      events[k].id.value in before && Visible(before[events[k].id.value], events[k].course, events[k].title)
  }

  lemma SnapshotEventsFaithful(before: Table, rows: seq<StudyTask>, pairs: seq<Item>, courses: seq<CourseRef>)
    requires Lists(rows, before)
    ensures Faithful(Events(pairs, Snapshot(courses, rows)), before)
  {
    forall k | 0 <= k < |pairs| && EventAt(pairs, k, Snapshot(courses, rows)).id.Some?
      ensures var e := EventAt(pairs, k, Snapshot(courses, rows));
              e.id.value in before && Visible(before[e.id.value], e.course, e.title)
    {
      EventIdentity(pairs, k, courses, rows);
    }
  }

  predicate SameKey(a: StudyTask, b: StudyTask) { a.course == b.course && a.title == b.title }

  /** Tasks of the table before keep their course and title, and change only by being put back to do. */
  ghost predicate KeepsKeys(before: Table, table: Table) {
    Keyed(table) &&
    forall x | x in before :: x in table && SameKey(table[x], before[x]) &&
                              (table[x] == before[x] || table[x].status == Todo)
  }

  /** Tasks not in the table before were created by an event without an id. */
  ghost predicate CreatedBy(before: Table, table: Table, events: seq<Upsert>, ids: seq<string>, n: nat)
    requires n <= |events| == |ids|
  {
    forall x | x in table && x !in before :: exists k :: 0 <= k < n && events[k].id.None? && ids[k] == x
  }

  /** Every event applied so far has left a visible task under its own course and title. */
  ghost predicate Landed(table: Table, events: seq<Upsert>, ids: seq<string>, n: nat)
    requires n <= |events| == |ids|
  {
    forall k | 0 <= k < n ::
      TargetOf(events[k], ids[k]) in table &&
      Visible(table[TargetOf(events[k], ids[k])], events[k].course, events[k].title)
  }

  lemma ApplyKeepsKeys(before: Table, table: Table, events: seq<Upsert>, ids: seq<string>, n: nat)
    requires n < |events| == |ids| && Keyed(before) && Faithful(events, before) && NewIds(ids, before)
    requires KeepsKeys(before, table) && CreatedBy(before, table, events, ids, n)
    ensures KeepsKeys(before, Apply(table, events[n], ids[n]))
    ensures CreatedBy(before, Apply(table, events[n], ids[n]), events, ids, n + 1)
  {
    var e := events[n];
    var target := TargetOf(e, ids[n]);
    if target in before { assert e.id.Some?; }
    var more := Apply(table, e, ids[n]);
    forall x | x in more && x !in before ensures exists k :: 0 <= k < n + 1 && events[k].id.None? && ids[k] == x {
      if x == target {
        assert events[n].id.None? && ids[n] == x;
      } else {
        var k :| 0 <= k < n && events[k].id.None? && ids[k] == x;
      }
    }
  }

  lemma ApplyLands(before: Table, table: Table, events: seq<Upsert>, ids: seq<string>, n: nat)
    requires n < |events| == |ids| && Keyed(before) && Faithful(events, before) && NewIds(ids, before)
    requires KeepsKeys(before, table) && Landed(table, events, ids, n)
    ensures Landed(Apply(table, events[n], ids[n]), events, ids, n + 1)
  {
    var target := TargetOf(events[n], ids[n]);
    var more := Apply(table, events[n], ids[n]);
    forall k | 0 <= k < n
      ensures var t := TargetOf(events[k], ids[k]); t in more && Visible(more[t], events[k].course, events[k].title)
    {
      var t := TargetOf(events[k], ids[k]);
      assert t in table && Visible(table[t], events[k].course, events[k].title);
      if t == target {
        if events[n].id.Some? {
          assert Visible(before[t], events[n].course, events[n].title) && SameKey(table[t], before[t]);
        }
      }
    }
  }

  /** While events are applied, tasks keep their course and title, and every applied event's target stays its own. */
  lemma {:induction false} ApplyingKeepsKeys(before: Table, events: seq<Upsert>, ids: seq<string>, n: nat)
    requires |ids| == |events| && n <= |events| && Keyed(before) && Faithful(events, before) && NewIds(ids, before)
    ensures var table := ApplyAll(before, events[..n], ids[..n]);
            KeepsKeys(before, table) && CreatedBy(before, table, events, ids, n) && Landed(table, events, ids, n)
  {
    if n == 0 {
    } else {
      ApplyingKeepsKeys(before, events, ids, n - 1);
      assert events[..n][..n - 1] == events[..n - 1] && ids[..n][..n - 1] == ids[..n - 1];
      var table := ApplyAll(before, events[..n - 1], ids[..n - 1]);
      ApplyKeepsKeys(before, table, events, ids, n - 1);
      ApplyLands(before, table, events, ids, n - 1);
    }
  }

  /** Every event of an approval finds its task in the table afterwards. */
  lemma ApprovedLands(before: Table, rows: seq<StudyTask>, pairs: seq<Item>, courses: seq<CourseRef>,
                      ids: seq<string>, after: Table, k: nat) returns (task: StudyTask)
    requires Approves(before, rows, pairs, courses, ids, after) && k < |pairs|
    ensures var e := EventAt(pairs, k, Snapshot(courses, rows));
            task.id in after && after[task.id] == task && Visible(task, e.course, e.title)
  {
    var events := Events(pairs, Snapshot(courses, rows));
    SnapshotEventsFaithful(before, rows, pairs, courses);
    ApplyingKeepsKeys(before, events, ids, |events|);
    assert events[..|events|] == events && ids[..|events|] == ids;
    task := after[TargetOf(events[k], ids[k])];
  }

  lemma ApprovedIsVisible(before: Table, rows: seq<StudyTask>, pairs: seq<Item>, courses: seq<CourseRef>,
                          ids: seq<string>, after: Table, again: seq<StudyTask>, k: nat)
    requires Approves(before, rows, pairs, courses, ids, after) && Lists(again, after) && k < |pairs|
    ensures var e := EventAt(pairs, k, Snapshot(courses, again));
            e.id.Some? <==> e.course.Some?
  {
    var task := ApprovedLands(before, rows, pairs, courses, ids, after, k);
    EventIdentity(pairs, k, courses, again);
    CourseIdsStable(courses, rows, again, pairs[k].course);
    assert task in again;
  }

  /** The course an event resolves to depends on the courses alone. */
  lemma {:induction false} CourseIdsStable(courses: seq<CourseRef>, rows: seq<StudyTask>, again: seq<StudyTask>,
                                           name: string)
    ensures CourseIdOf(Snapshot(courses, rows), name) == CourseIdOf(Snapshot(courses, again), name)
  {
    if |courses| > 0 {
      var n := |courses| - 1;
      CourseIdsStable(courses[..n], rows, again, name);
      assert Snapshot(courses, rows)[..n] == Snapshot(courses[..n], rows);
      assert Snapshot(courses, again)[..n] == Snapshot(courses[..n], again);
    }
  }

  // ---- Approving the same plan again ----

  function Unresolved(events: seq<Upsert>): nat { Count((e: Upsert) => e.course.None?, events) }

  lemma GrowthOfOne(before: Table, table: Table, events: seq<Upsert>, ids: seq<string>, n: nat)
    requires n < |events| == |ids| && Faithful(events, before) && NewIds(ids, before)
    requires KeepsKeys(before, table) && CreatedBy(before, table, events, ids, n)
    ensures |Apply(table, events[n], ids[n])| == |table| + if events[n].id.None? then 1 else 0
  {
    var target := TargetOf(events[n], ids[n]);
    var more := Apply(table, events[n], ids[n]);
    assert more.Keys == table.Keys + {target};
    assert |more.Keys| == |more| && |table.Keys| == |table|;
    assert target in table <==> events[n].id.Some?;
  }

  lemma ApplyAllStep(table: Table, events: seq<Upsert>, ids: seq<string>, n: nat)
    requires n < |events| == |ids|
    ensures ApplyAll(table, events[..n + 1], ids[..n + 1]) ==
            Apply(ApplyAll(table, events[..n], ids[..n]), events[n], ids[n])
  {
    assert events[..n + 1][..n] == events[..n] && ids[..n + 1][..n] == ids[..n];
  }

  lemma UnresolvedStep(events: seq<Upsert>, n: nat)
    requires n < |events|
    ensures Unresolved(events[..n + 1]) == Unresolved(events[..n]) + if events[n].course.None? then 1 else 0
  {
    assert events[..n + 1] == events[..n] + [events[n]];
    CountSnoc((e: Upsert) => e.course.None?, events[..n], events[n]);
  }

  lemma {:induction false} TableGrowth(before: Table, events: seq<Upsert>, ids: seq<string>, n: nat)
    requires |ids| == |events| && n <= |events| && Keyed(before) && Faithful(events, before) && NewIds(ids, before)
    requires forall k | 0 <= k < |events| :: events[k].id.Some? <==> events[k].course.Some?
    ensures |ApplyAll(before, events[..n], ids[..n])| == |before| + Unresolved(events[..n])
  {
    if n == 0 {
    } else {
      TableGrowth(before, events, ids, n - 1);
      ApplyingKeepsKeys(before, events, ids, n - 1);
      ApplyAllStep(before, events, ids, n - 1);
      UnresolvedStep(events, n - 1);
      GrowthOfOne(before, ApplyAll(before, events[..n - 1], ids[..n - 1]), events, ids, n - 1);
    }
  }

  /** Approving a plan a second time adds one task per event whose course does not resolve. */
  lemma SecondApprovalAdds(before: Table, rows: seq<StudyTask>, pairs: seq<Item>, courses: seq<CourseRef>,
                           ids: seq<string>,
                           middle: Table, again: seq<StudyTask>, more: seq<string>, after: Table)
    requires Approves(before, rows, pairs, courses, ids, middle)
    requires Approves(middle, again, pairs, courses, more, after)
    ensures |after| == |middle| + Unresolved(Events(pairs, Snapshot(courses, again)))
    ensures middle.Keys <= after.Keys
  {
    var events := Events(pairs, Snapshot(courses, again));
    SnapshotEventsFaithful(middle, again, pairs, courses);
    forall k | 0 <= k < |events| ensures events[k].id.Some? <==> events[k].course.Some? {
      ApprovedIsVisible(before, rows, pairs, courses, ids, middle, again, k);
    }
    assert events[..|events|] == events && more[..|events|] == more;
    TableGrowth(middle, events, more, |events|);
    ApplyingKeepsKeys(middle, events, more, |events|);
  }

  /** It adds no task at all exactly when every course of the plan resolves. */
  lemma SecondApprovalAddsNothingIff(before: Table, rows: seq<StudyTask>, pairs: seq<Item>, courses: seq<CourseRef>,
                                     ids: seq<string>,
                                     middle: Table, again: seq<StudyTask>, more: seq<string>, after: Table)
    requires Approves(before, rows, pairs, courses, ids, middle)
    requires Approves(middle, again, pairs, courses, more, after)
    ensures after.Keys == middle.Keys <==>
            forall k | 0 <= k < |pairs| :: CourseIdOf(Snapshot(courses, again), pairs[k].course).Some?
  {
    var events := Events(pairs, Snapshot(courses, again));
    SecondApprovalAdds(before, rows, pairs, courses, ids, middle, again, more, after);
    CountZero(events);
    assert |middle.Keys| == |middle| && |after.Keys| == |after|;
    if |after| == |middle| { SubsetOfSameSize(middle.Keys, after.Keys); }
    assert forall k | 0 <= k < |pairs| :: events[k].course == CourseIdOf(Snapshot(courses, again), pairs[k].course);
  }

  lemma {:induction false} CountZero(events: seq<Upsert>)
    ensures Unresolved(events) == 0 <==> forall k | 0 <= k < |events| :: events[k].course.Some?
  {
    if |events| > 0 {
      CountZero(events[1..]);
      assert forall k | 1 <= k < |events| :: events[k] == events[1..][k - 1];
    }
  }

  lemma SubsetOfSameSize(a: set<string>, b: set<string>)
    requires a <= b && |a| == |b|
    ensures a == b
  {
    assert b == a + (b - a);
  }

  // ---- Unchanged contents ----

  /** No two events share a course and title. */
  ghost predicate DistinctWork(events: seq<Upsert>) {
    forall j, k | 0 <= j < k < |events| :: events[j].course != events[k].course || events[j].title != events[k].title
  }

  /** At most one visible task of the table has a given event's course and title. */
  ghost predicate SingleTask(e: Upsert, table: Table) {
    forall x, y | x in table && y in table &&
                  Visible(table[x], e.course, e.title) && Visible(table[y], e.course, e.title) ::
      x == y
  }

  ghost predicate UniqueWork(events: seq<Upsert>, table: Table) {
    DistinctWork(events) && forall k | 0 <= k < |events| :: SingleTask(events[k], table)
  }

  lemma TargetsDiffer(before: Table, events: seq<Upsert>, ids: seq<string>, j: nat, k: nat)
    requires |ids| == |events| && j < k < |events| && Faithful(events, before) && NewIds(ids, before)
    requires events[j].course != events[k].course || events[j].title != events[k].title
    ensures TargetOf(events[j], ids[j]) != TargetOf(events[k], ids[k])
  {}

  /** Every event applied so far stands with its own content. */
  ghost predicate Standing(table: Table, events: seq<Upsert>, ids: seq<string>, n: nat)
    requires n <= |events| == |ids|
  {
    forall k | 0 <= k < n ::
      TargetOf(events[k], ids[k]) in table &&
      table[TargetOf(events[k], ids[k])] == Content(events[k], TargetOf(events[k], ids[k]))
  }

  ghost predicate IsTarget(x: string, events: seq<Upsert>, ids: seq<string>, n: nat)
    requires n <= |events| == |ids|
  {
    exists k :: 0 <= k < n && x == TargetOf(events[k], ids[k])
  }

  /** Tasks that are not the target of an event are as they were. */
  ghost predicate Untouched(before: Table, table: Table, events: seq<Upsert>, ids: seq<string>, n: nat)
    requires n <= |events| == |ids|
  {
    forall x | x in table && !IsTarget(x, events, ids, n) :: x in before && table[x] == before[x]
  }

  lemma IsTargetStep(x: string, events: seq<Upsert>, ids: seq<string>, n: nat)
    requires n < |events| == |ids|
    ensures IsTarget(x, events, ids, n + 1) <==> IsTarget(x, events, ids, n) || x == TargetOf(events[n], ids[n])
  {
    if x == TargetOf(events[n], ids[n]) { assert IsTarget(x, events, ids, n + 1); }
  }

  lemma ApplyStands(before: Table, table: Table, events: seq<Upsert>, ids: seq<string>, n: nat)
    requires n < |events| == |ids| && Faithful(events, before) && NewIds(ids, before) && DistinctWork(events)
    requires Standing(table, events, ids, n)
    ensures Standing(Apply(table, events[n], ids[n]), events, ids, n + 1)
  {
    forall k | 0 <= k < n ensures TargetOf(events[k], ids[k]) != TargetOf(events[n], ids[n]) {
      TargetsDiffer(before, events, ids, k, n);
    }
  }

  lemma ApplyLeavesOthers(before: Table, table: Table, events: seq<Upsert>, ids: seq<string>, n: nat)
    requires n < |events| == |ids| && Untouched(before, table, events, ids, n)
    ensures Untouched(before, Apply(table, events[n], ids[n]), events, ids, n + 1)
  {
    var more := Apply(table, events[n], ids[n]);
    forall x | x in more && !IsTarget(x, events, ids, n + 1) ensures x in before && more[x] == before[x] {
      IsTargetStep(x, events, ids, n);
    }
  }

  /** With distinct work, every event's own content stands once all are applied, and other tasks are untouched. */
  lemma {:induction false} ContentsStand(before: Table, events: seq<Upsert>, ids: seq<string>, n: nat)
    requires |ids| == |events| && n <= |events| && Faithful(events, before)
    requires NewIds(ids, before) && DistinctWork(events)
    ensures Standing(ApplyAll(before, events[..n], ids[..n]), events, ids, n)
    ensures Untouched(before, ApplyAll(before, events[..n], ids[..n]), events, ids, n)
  {
    if n == 0 {
    } else {
      ContentsStand(before, events, ids, n - 1);
      assert events[..n][..n - 1] == events[..n - 1] && ids[..n][..n - 1] == ids[..n - 1];
      var table := ApplyAll(before, events[..n - 1], ids[..n - 1]);
      ApplyStands(before, table, events, ids, n - 1);
      ApplyLeavesOthers(before, table, events, ids, n - 1);
    }
  }

  lemma {:induction false} RewritingSame(table: Table, events: seq<Upsert>, ids: seq<string>, n: nat)
    requires |ids| == |events| && n <= |events|
    requires forall k | 0 <= k < |events| :: events[k].id.Some? && events[k].id.value in table &&
                                             table[events[k].id.value] == Content(events[k], events[k].id.value)
    ensures ApplyAll(table, events[..n], ids[..n]) == table
  {
    if n == 0 {
    } else {
      RewritingSame(table, events, ids, n - 1);
      assert events[..n][..n - 1] == events[..n - 1] && ids[..n][..n - 1] == ids[..n - 1];
    }
  }

  /** After an approval of distinct work each event's task holds that event's content. */
  lemma ApprovedContent(before: Table, events: seq<Upsert>, ids: seq<string>, k: nat)
    requires |ids| == |events| && k < |events| && Faithful(events, before)
    requires NewIds(ids, before) && DistinctWork(events)
    ensures var id := TargetOf(events[k], ids[k]);
            id in ApplyAll(before, events, ids) && ApplyAll(before, events, ids)[id] == Content(events[k], id)
  {
    ContentsStand(before, events, ids, |events|);
    assert events[..|events|] == events && ids[..|events|] == ids;
  }

  lemma UntouchedIsOld(before: Table, events: seq<Upsert>, ids: seq<string>, y: string)
    requires |ids| == |events| && Faithful(events, before) && NewIds(ids, before) && DistinctWork(events)
    requires y in ApplyAll(before, events, ids) && !IsTarget(y, events, ids, |events|)
    ensures y in before && ApplyAll(before, events, ids)[y] == before[y]
  {
    ContentsStand(before, events, ids, |events|);
    assert events[..|events|] == events && ids[..|events|] == ids;
  }

  /** After the first approval, the only visible task of an event's work is the event's own target. */
  lemma TargetIsTheOnlyOne(before: Table, events: seq<Upsert>, ids: seq<string>, middle: Table, k: nat, y: string)
    requires |ids| == |events| && k < |events| && Keyed(before) && Faithful(events, before) && NewIds(ids, before)
    requires UniqueWork(events, before) && middle == ApplyAll(before, events, ids)
    requires events[k].id.None? ==> forall x | x in before :: !Visible(before[x], events[k].course, events[k].title)
    requires y in middle && Visible(middle[y], events[k].course, events[k].title)
    ensures y == TargetOf(events[k], ids[k])
  {
    if IsTarget(y, events, ids, |events|) {
      var j :| 0 <= j < |events| && y == TargetOf(events[j], ids[j]);
      ApprovedContent(before, events, ids, j);
      assert middle[y] == Content(events[j], y);
    } else {
      UntouchedIsOld(before, events, ids, y);
      assert SingleTask(events[k], before);
    }
  }

  /** An event without an id has no visible task before it: its course resolves, so it would have named one. */
  lemma NothingVisibleBefore(before: Table, rows: seq<StudyTask>, pairs: seq<Item>, courses: seq<CourseRef>, k: nat)
    requires Lists(rows, before) && k < |pairs|
    requires EventAt(pairs, k, Snapshot(courses, rows)).course.Some?
    ensures var e := EventAt(pairs, k, Snapshot(courses, rows));
            e.id.None? ==> forall x | x in before :: !Visible(before[x], e.course, e.title)
  {
    var e := EventAt(pairs, k, Snapshot(courses, rows));
    EventIdentity(pairs, k, courses, rows);
    if e.id.None? {
      forall x | x in before ensures !Visible(before[x], e.course, e.title) { assert before[x] in rows; }
    }
  }

  /** What the second approval's event names, when its course resolves: the task the first approval left for it. */
  lemma SecondEventNamesTarget(before: Table, rows: seq<StudyTask>, pairs: seq<Item>, courses: seq<CourseRef>,
                               ids: seq<string>, middle: Table, again: seq<StudyTask>, k: nat)
    requires Approves(before, rows, pairs, courses, ids, middle) && Lists(again, middle)
    requires UniqueWork(Events(pairs, Snapshot(courses, rows)), before)
    requires k < |pairs| && CourseIdOf(Snapshot(courses, rows), pairs[k].course).Some?
    ensures var first, e := EventAt(pairs, k, Snapshot(courses, rows)), EventAt(pairs, k, Snapshot(courses, again));
            e.course == first.course && e.id == Some(TargetOf(first, ids[k]))
  {
    var events := Events(pairs, Snapshot(courses, rows));
    var e := EventAt(pairs, k, Snapshot(courses, again));
    SnapshotEventsFaithful(before, rows, pairs, courses);
    CourseIdsStable(courses, rows, again, pairs[k].course);
    ApprovedIsVisible(before, rows, pairs, courses, ids, middle, again, k);
    EventIdentity(pairs, k, courses, again);
    var r :| r in again && Visible(r, e.course, e.title) && r.id == e.id.value;
    NothingVisibleBefore(before, rows, pairs, courses, k);
    TargetIsTheOnlyOne(before, events, ids, middle, k, r.id);
  }

  /** The second approval's event for a resolved pair rewrites that very task with the same content. */
  lemma SecondEventRepeats(before: Table, rows: seq<StudyTask>, pairs: seq<Item>, courses: seq<CourseRef>,
                           ids: seq<string>, middle: Table, again: seq<StudyTask>, k: nat)
    requires Approves(before, rows, pairs, courses, ids, middle) && Lists(again, middle)
    requires UniqueWork(Events(pairs, Snapshot(courses, rows)), before)
    requires k < |pairs| && CourseIdOf(Snapshot(courses, rows), pairs[k].course).Some?
    ensures var e := EventAt(pairs, k, Snapshot(courses, again));
            e.id.Some? && e.id.value in middle && middle[e.id.value] == Content(e, e.id.value)
  {
    SnapshotEventsFaithful(before, rows, pairs, courses);
    SecondEventNamesTarget(before, rows, pairs, courses, ids, middle, again, k);
    ApprovedContent(before, Events(pairs, Snapshot(courses, rows)), ids, k);
  }

  /** When every course resolves and no work is listed twice, approving the same plan again changes no task. */
  lemma SecondApprovalChangesNothing(before: Table, rows: seq<StudyTask>, pairs: seq<Item>, courses: seq<CourseRef>,
                                     ids: seq<string>, middle: Table, again: seq<StudyTask>, more: seq<string>,
                                     after: Table)
    requires Approves(before, rows, pairs, courses, ids, middle)
    requires Approves(middle, again, pairs, courses, more, after)
    requires forall k | 0 <= k < |pairs| :: CourseIdOf(Snapshot(courses, rows), pairs[k].course).Some?
    requires UniqueWork(Events(pairs, Snapshot(courses, rows)), before)
    ensures after == middle
  {
    var events := Events(pairs, Snapshot(courses, again));
    forall k | 0 <= k < |events|
      ensures events[k].id.Some? && events[k].id.value in middle &&
              middle[events[k].id.value] == Content(events[k], events[k].id.value)
    {
      SecondEventRepeats(before, rows, pairs, courses, ids, middle, again, k);
    }
    RewritingSame(middle, events, more, |events|);
    assert events[..|events|] == events && more[..|events|] == more;
  }

  // ---- On the store itself ----

  function CourseIdSet(refs: seq<CourseRef>): set<string> { set c | c in refs :: c.id }

  /** Every event built from a snapshot of the courses is one the store accepts. */
  lemma SnapshotEventsAccepted(pairs: seq<Item>, refs: seq<CourseRef>, rows: seq<StudyTask>, store: Store)
    requires store.courses == CourseIdSet(refs)
    ensures forall e | e in Events(pairs, Snapshot(refs, rows)) :: store.Accepts(e)
  {
    var views := Snapshot(refs, rows);
    forall k | 0 <= k < |pairs| ensures store.Accepts(EventAt(pairs, k, views)) {
      var e := EventAt(pairs, k, views);
      ResolvedCourseIsListed(refs, rows, pairs[k].course);
      EventWithinDay(pairs, k, views);
      if e.course.Some? {
        var i :| 0 <= i < |refs| && Some(refs[i].id) == e.course;
        assert refs[i] in refs;
      }
    }
  }

  /** An approval leaves a keyed table in which the old tasks and the new identifiers stand. */
  lemma ApprovedTable(before: Table, rows: seq<StudyTask>, pairs: seq<Item>, refs: seq<CourseRef>, ids: seq<string>,
                      after: Table)
    requires Approves(before, rows, pairs, refs, ids, after)
    ensures Keyed(after) && forall x | x in after :: x in before || x in ids
  {
    var events := Events(pairs, Snapshot(refs, rows));
    SnapshotEventsFaithful(before, rows, pairs, refs);
    ApplyingKeepsKeys(before, events, ids, |events|);
    assert events[..|events|] == events && ids[..|events|] == ids;
  }

  /** No later event has the course and title of event `k`. */
  ghost predicate LastOfItsWork(events: seq<Upsert>, k: nat)
    requires k < |events|
  {
    forall j | k < j < |events| :: events[j].course != events[k].course || events[j].title != events[k].title
  }

  /** The last event of a piece of work keeps its content to the end. */
  lemma {:induction false} LastContentStands(before: Table, events: seq<Upsert>, ids: seq<string>, k: nat, n: nat)
    requires |ids| == |events| && k < n <= |events| && Faithful(events, before) && NewIds(ids, before)
    requires LastOfItsWork(events, k)
    ensures var id, table := TargetOf(events[k], ids[k]), ApplyAll(before, events[..n], ids[..n]);
            id in table && table[id] == Content(events[k], id)
  {
    ApplyAllStep(before, events, ids, n - 1);
    if k < n - 1 {
      LastContentStands(before, events, ids, k, n - 1);
      TargetsDiffer(before, events, ids, k, n - 1);
    }
  }

  /** A stored task says what item `k` of a plan says: its notes, an hour of its own day by its position among the
      items of that day, still to do, and the supervisor's. */
  predicate SaysWhat(task: StudyTask, pairs: seq<Item>, k: nat)
    requires k < |pairs|
  {
    var item, earlier := pairs[k], ItemsOn(pairs[..k], pairs[k].day);
    task.title == (if item.title == "" then "Study task" else item.title) && task.notes == item.description &&
    task.startAt == 1440 * item.day + 60 * Min(9 + 2 * earlier, 21) && task.endAt == task.startAt + 60 &&
    task.status == Todo && task.origin == Supervisor
  }

  /** After an approval every item is stored as it says, unless a later one of the plan is the same work. */
  lemma ApprovedItemsStored(before: Table, rows: seq<StudyTask>, pairs: seq<Item>, refs: seq<CourseRef>,
                            ids: seq<string>, after: Table, k: nat)
    requires Approves(before, rows, pairs, refs, ids, after) && k < |pairs|
    requires LastOfItsWork(Events(pairs, Snapshot(refs, rows)), k)
    ensures exists id | id in after ::
              SaysWhat(after[id], pairs, k) && after[id].course == CourseIdOf(Snapshot(refs, rows), pairs[k].course)
  {
    var events := Events(pairs, Snapshot(refs, rows));
    SnapshotEventsFaithful(before, rows, pairs, refs);
    LastContentStands(before, events, ids, k, |events|);
    assert events[..|events|] == events && ids[..|events|] == ids;
    assert SaysWhat(after[TargetOf(events[k], ids[k])], pairs, k);
  }

  /** The stored tasks, in some order. */
  method ListTasks(store: Store) returns (rows: seq<StudyTask>)
    requires Keyed(store.tasks)
    ensures Lists(rows, store.tasks)
  {
    rows := [];
    var left := store.tasks.Keys;
    while left != {}
      invariant left <= store.tasks.Keys
      invariant forall r | r in rows :: r.id in store.tasks && store.tasks[r.id] == r
      invariant forall id | id in store.tasks && id !in left :: store.tasks[id] in rows
      decreases left
    {
      var id :| id in left;
      rows := rows + [store.tasks[id]];
      left := left - {id};
    }
  }

  /** A plan approved against a fresh snapshot of the store: every one of its events is written. */
  method ApprovePlan(store: Store, pairs: seq<Item>, refs: seq<CourseRef>, ids: seq<string>)
    returns (written: nat, ghost rows: seq<StudyTask>)
    requires Keyed(store.tasks) && store.courses == CourseIdSet(refs)
    requires |ids| == |pairs| && NewIds(ids, store.tasks)
    modifies store
    ensures written == |pairs|
    ensures Approves(old(store.tasks), rows, pairs, refs, ids, store.tasks)
    ensures forall k: nat | k < |pairs| && LastOfItsWork(Events(pairs, Snapshot(refs, rows)), k) ::
              exists id | id in store.tasks :: SaysWhat(store.tasks[id], pairs, k)
  {
    var listed := ListTasks(store);
    rows := listed;
    var views := SharedState(refs, listed);
    var events := CalendarEvents(pairs, views);
    SnapshotEventsAccepted(pairs, refs, listed, store);
    ghost var before := store.tasks;
    written := store.Approve(events, ids);
    assert events[..|events|] == events && ids[..|events|] == ids;
    forall k: nat | k < |pairs| && LastOfItsWork(Events(pairs, Snapshot(refs, rows)), k)
      ensures exists id | id in store.tasks :: SaysWhat(store.tasks[id], pairs, k)
    {
      ApprovedItemsStored(before, rows, pairs, refs, ids, store.tasks, k);
    }
  }

  /** The course of this name resolves; which tasks are stored does not matter. */
  predicate Resolves(refs: seq<CourseRef>, name: string) { CourseIdOf(Snapshot(refs, []), name).Some? }

  predicate AllResolve(refs: seq<CourseRef>, pairs: seq<Item>) {
    forall k | 0 <= k < |pairs| :: Resolves(refs, pairs[k].course)
  }

  /** The same plan approved twice. The second time adds a task to the store exactly when some course does not resolve,
      and changes nothing when all resolve and no work is listed twice. */
  method ApproveTwice(store: Store, pairs: seq<Item>, refs: seq<CourseRef>, ids: seq<string>, more: seq<string>)
    returns (ghost rows: seq<StudyTask>, ghost middle: Table)
    requires Keyed(store.tasks) && store.courses == CourseIdSet(refs)
    requires |ids| == |more| == |pairs| && NewIds(ids, store.tasks) && NewIds(more, store.tasks)
    requires forall x | x in ids :: x !in more
    modifies store
    ensures Approves(old(store.tasks), rows, pairs, refs, ids, middle)
    ensures middle.Keys <= store.tasks.Keys
    ensures store.tasks.Keys == middle.Keys <==> AllResolve(refs, pairs)
    ensures AllResolve(refs, pairs) && UniqueWork(Events(pairs, Snapshot(refs, rows)), old(store.tasks)) ==>
              store.tasks == middle
  {
    ghost var before := store.tasks;
    var first, listed := ApprovePlan(store, pairs, refs, ids);
    rows, middle := listed, store.tasks;
    ApprovedTable(before, listed, pairs, refs, ids, middle);
    var second, again := ApprovePlan(store, pairs, refs, more);
    forall k | 0 <= k < |pairs|
      ensures Resolves(refs, pairs[k].course) <==> CourseIdOf(Snapshot(refs, again), pairs[k].course).Some?
      ensures Resolves(refs, pairs[k].course) <==> CourseIdOf(Snapshot(refs, listed), pairs[k].course).Some?
    {
      CourseIdsStable(refs, [], again, pairs[k].course);
      CourseIdsStable(refs, [], listed, pairs[k].course);
    }
    SecondApprovalAdds(before, listed, pairs, refs, ids, middle, again, more, store.tasks);
    SecondApprovalAddsNothingIff(before, listed, pairs, refs, ids, middle, again, more, store.tasks);
    if AllResolve(refs, pairs) && UniqueWork(Events(pairs, Snapshot(refs, listed)), before) {
      SecondApprovalChangesNothing(before, listed, pairs, refs, ids, middle, again, more, store.tasks);
    }
  }
}
