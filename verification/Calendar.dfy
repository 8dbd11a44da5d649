/** From an approved plan to calendar events, and the task store those events update. */
module Calendar {
  import opened Prelude
  import opened Assembly

  const MINUTES_PER_DAY := 1440

  datatype Status = Todo | Finished | Skipped

  datatype Origin = Student | Supervisor

  /** A stored task; times are minutes since day 0. */
  datatype StudyTask = StudyTask(id: string, course: Option<string>, title: string, notes: string,
                                 startAt: int, endAt: int, status: Status, origin: Origin)

  /** A course as the shared state shows it, with the tasks of its current plan. */
  datatype TaskView = TaskView(id: string, title: string, day: int)

  datatype CourseView = CourseView(id: Option<string>, name: string, tasks: seq<TaskView>)

  /** A task_upsert event. Its status is always todo and its origin the supervisor. */
  datatype Upsert = Upsert(id: Option<string>, course: Option<string>, title: string, notes: string,
                           startAt: int, endAt: int)

  type DatedKey = (Option<string>, string, int)

  type TitleKey = (Option<string>, string)

  // ---- Recognising tasks already on the calendar ----

  /** The id of the last course that carries this name and has an id. */
  function CourseIdOf(courses: seq<CourseView>, name: string): Option<string> {
    if |courses| == 0 then None
    else
      var c := courses[|courses| - 1];
      if c.name == name && c.id.Some? then c.id else CourseIdOf(courses[..|courses| - 1], name)
  }

  /** A name resolves to the last course that carries it and has an id, and to nothing when there is none. */
  lemma {:induction false} CourseIdIsLast(courses: seq<CourseView>, name: string)
    ensures if exists c | c in courses :: c.name == name && c.id.Some?
            then exists k | 0 <= k < |courses| ::
                   courses[k].name == name && courses[k].id.Some? && CourseIdOf(courses, name) == courses[k].id &&
                   forall j | k < j < |courses| :: courses[j].name != name || courses[j].id.None?
            else CourseIdOf(courses, name) == None
  {
    if |courses| > 0 {
      var n := |courses| - 1;
      var front, last := courses[..n], courses[n];
      assert courses == front + [last];
      CourseIdIsLast(front, name);
      if !(last.name == name && last.id.Some?) {
        if c :| c in courses && c.name == name && c.id.Some? {
          assert c in front;
          var k :| 0 <= k < n && front[k].name == name && front[k].id.Some? && CourseIdOf(front, name) == front[k].id &&
                   forall j | k < j < n :: front[j].name != name || front[j].id.None?;
          assert courses[k] == front[k];
          forall j | k < j < |courses| ensures courses[j].name != name || courses[j].id.None? {
            if j < n { assert courses[j] == front[j]; }
          }
        }
      }
    }
  }

  function Indexed(tasks: seq<TaskView>, course: Option<string>, dated: map<DatedKey, string>): map<DatedKey, string> {
    if |tasks| == 0 then dated
    else
      var front, t := Indexed(tasks[..|tasks| - 1], course, dated), tasks[|tasks| - 1];
      if t.title == "" then front else front[(course, t.title, t.day) := t.id]
  }

  function Titled(tasks: seq<TaskView>, course: Option<string>, titles: map<TitleKey, string>): map<TitleKey, string> {
    if |tasks| == 0 then titles
    else
      var front, t := Titled(tasks[..|tasks| - 1], course, titles), tasks[|tasks| - 1];
      if t.title == "" then front else front[(course, t.title) := t.id]
  }

  function DatedIndex(courses: seq<CourseView>): map<DatedKey, string> {
    if |courses| == 0 then map[]
    else
      var c := courses[|courses| - 1];
      Indexed(c.tasks, c.id, DatedIndex(courses[..|courses| - 1]))
  }

  function TitleIndex(courses: seq<CourseView>): map<TitleKey, string> {
    if |courses| == 0 then map[]
    else
      var c := courses[|courses| - 1];
      Titled(c.tasks, c.id, TitleIndex(courses[..|courses| - 1]))
  }

  // ---- The event of one event/day pair ----

  function TitleOf(item: Item): string { if item.title == "" then "Study task" else item.title }

  /** Items earlier in the plan on the same day. */
  function Used(pairs: seq<Item>, k: nat): nat
    requires k < |pairs|
  {
    ItemsOn(pairs[..k], pairs[k].day)
  }

  function Hour(used: nat): int { Min(9 + 2 * used, 21) }

  function EventAt(pairs: seq<Item>, k: nat, courses: seq<CourseView>): Upsert
    requires k < |pairs|
  {
    var item := pairs[k];
    var course := CourseIdOf(courses, item.course);
    var title := TitleOf(item);
    var dated, titles := DatedIndex(courses), TitleIndex(courses);
    var start := MINUTES_PER_DAY * item.day + 60 * Hour(Used(pairs, k));
    var id := if (course, title, item.day) in dated then Some(dated[(course, title, item.day)])
              else if (course, title) in titles then Some(titles[(course, title)]) else None;
    Upsert(id, course, title, item.description, start, start + 60)
  }

  function Events(pairs: seq<Item>, courses: seq<CourseView>): seq<Upsert> {
    seq(|pairs|, k requires 0 <= k < |pairs| => EventAt(pairs, k, courses))
  }

  method IndexTasks(courses: seq<CourseView>) returns (dated: map<DatedKey, string>, titles: map<TitleKey, string>)
    ensures dated == DatedIndex(courses) && titles == TitleIndex(courses)
  {
    dated, titles := map[], map[];
    for i := 0 to |courses|
      invariant dated == DatedIndex(courses[..i]) && titles == TitleIndex(courses[..i])
    {
      assert courses[..i + 1][..i] == courses[..i];
      ghost var dated0, titles0 := dated, titles;
      var course, tasks := courses[i].id, courses[i].tasks;
      for j := 0 to |tasks|
        invariant dated == Indexed(tasks[..j], course, dated0) && titles == Titled(tasks[..j], course, titles0)
      {
        assert tasks[..j + 1][..j] == tasks[..j];
        var t := tasks[j];
        if t.title != "" {
          dated := dated[(course, t.title, t.day) := t.id];
          titles := titles[(course, t.title) := t.id];
        }
      }
      assert tasks[..|tasks|] == tasks;
    }
    assert courses[..|courses|] == courses;
  }

  method CourseIds(courses: seq<CourseView>) returns (ids: map<string, string>)
    ensures forall name :: CourseIdOf(courses, name) == if name in ids then Some(ids[name]) else None
  {
    ids := map[];
    for i := 0 to |courses|
      invariant forall name :: CourseIdOf(courses[..i], name) == if name in ids then Some(ids[name]) else None
    {
      assert courses[..i + 1][..i] == courses[..i];
      if courses[i].id.Some? { ids := ids[courses[i].name := courses[i].id.value]; }
    }
    assert courses[..|courses|] == courses;
  }

  function UsedHours(used: map<int, nat>, day: int): nat { if day in used then used[day] else 0 }

  lemma ItemsOnSteps(pairs: seq<Item>, k: nat)
    requires k < |pairs|
    ensures forall day ::
              ItemsOn(pairs[..k + 1], day) == ItemsOn(pairs[..k], day) + if pairs[k].day == day then 1 else 0
  {
    assert pairs[..k + 1] == pairs[..k] + [pairs[k]];
    forall day ensures ItemsOn(pairs[..k + 1], day) == ItemsOn(pairs[..k], day) + if pairs[k].day == day then 1 else 0 {
      CountSnoc((x: Item) => x.day == day, pairs[..k], pairs[k]);
    }
  }

  method CalendarEvents(pairs: seq<Item>, courses: seq<CourseView>) returns (events: seq<Upsert>)
    ensures events == Events(pairs, courses)
  {
    var courseIds := CourseIds(courses);
    var dated, titles := IndexTasks(courses);
    var used: map<int, nat> := map[];
    events := [];
    for k := 0 to |pairs|
      invariant |events| == k && forall j | 0 <= j < k :: events[j] == EventAt(pairs, j, courses)
      invariant forall day :: UsedHours(used, day) == ItemsOn(pairs[..k], day)
    {
      var item := pairs[k];
      var start := MINUTES_PER_DAY * item.day + 60 * Hour(UsedHours(used, item.day));
      ItemsOnSteps(pairs, k);
      var more := used[item.day := UsedHours(used, item.day) + 1];
      forall day ensures UsedHours(more, day) == ItemsOn(pairs[..k + 1], day) {
        assert UsedHours(used, day) == ItemsOn(pairs[..k], day);
      }
      used := more;
      var course := if item.course in courseIds then Some(courseIds[item.course]) else None;
      var title := TitleOf(item);
      var id: Option<string> := None;
      if (course, title, item.day) in dated {
        id := Some(dated[(course, title, item.day)]);
      } else if (course, title) in titles {
        id := Some(titles[(course, title)]);
      }
      assert Upsert(id, course, title, item.description, start, start + 60) == EventAt(pairs, k, courses);
      events := events + [Upsert(id, course, title, item.description, start, start + 60)];
    }
    assert events == Events(pairs, courses);
  }

  // ---- Slots ----

  predicate Overlap(a: Upsert, b: Upsert) { a.startAt < b.endAt && b.startAt < a.endAt }

  /** Every event runs one hour, between nine in the morning and ten at night of its own day. */
  lemma EventWithinDay(pairs: seq<Item>, k: nat, courses: seq<CourseView>)
    requires k < |pairs|
    ensures var e, midnight := EventAt(pairs, k, courses), MINUTES_PER_DAY * pairs[k].day;
            midnight + 9 * 60 <= e.startAt < e.endAt <= midnight + 22 * 60
  {}

  lemma {:induction false} CountMonotone(pairs: seq<Item>, day: int, i: nat, j: nat)
    requires i <= j <= |pairs|
    ensures ItemsOn(pairs[..i], day) <= ItemsOn(pairs[..j], day)
  {
    CountAppend((x: Item) => x.day == day, pairs[..i], pairs[i..j]);
    assert pairs[..j] == pairs[..i] + pairs[i..j];
  }

  lemma UsedIncreases(pairs: seq<Item>, k: nat, j: nat)
    requires k < j < |pairs| && pairs[k].day == pairs[j].day
    ensures Used(pairs, k) < Used(pairs, j) < ItemsOn(pairs, pairs[j].day)
  {
    var day := pairs[k].day;
    CountSnoc((x: Item) => x.day == day, pairs[..k], pairs[k]);
    CountSnoc((x: Item) => x.day == day, pairs[..j], pairs[j]);
    assert pairs[..k + 1] == pairs[..k] + [pairs[k]] && pairs[..j + 1] == pairs[..j] + [pairs[j]];
    assert pairs[..|pairs|] == pairs;
    CountMonotone(pairs, day, k + 1, j);
    CountMonotone(pairs, day, j + 1, |pairs|);
  }

  /** The item of a day that follows exactly `u` others. */
  lemma {:induction false} NthOfDay(pairs: seq<Item>, day: int, u: nat, n: nat) returns (k: nat)
    requires n <= |pairs| && u < ItemsOn(pairs[..n], day)
    ensures k < n && pairs[k].day == day && Used(pairs, k) == u
  {
    assert n > 0;
    assert pairs[..n] == pairs[..n - 1] + [pairs[n - 1]];
    CountSnoc((x: Item) => x.day == day, pairs[..n - 1], pairs[n - 1]);
    if u < ItemsOn(pairs[..n - 1], day) {
      k := NthOfDay(pairs, day, u, n - 1);
    } else {
      k := n - 1;
    }
  }

  ghost predicate OverlapFree(pairs: seq<Item>, courses: seq<CourseView>, day: int) {
    forall k, j | 0 <= k < j < |pairs| && pairs[k].day == day && pairs[j].day == day ::
      !Overlap(EventAt(pairs, k, courses), EventAt(pairs, j, courses))
  }

  /** A day's events are free of overlap exactly when the day has at most seven items. */
  lemma SevenItemsFit(pairs: seq<Item>, courses: seq<CourseView>, day: int)
    ensures OverlapFree(pairs, courses, day) <==> ItemsOn(pairs, day) <= 7
  {
    if ItemsOn(pairs, day) <= 7 {
      forall k, j | 0 <= k < j < |pairs| && pairs[k].day == day && pairs[j].day == day
        ensures !Overlap(EventAt(pairs, k, courses), EventAt(pairs, j, courses))
      {
        UsedIncreases(pairs, k, j);
      }
    } else {
      assert pairs[..|pairs|] == pairs;
      var k := NthOfDay(pairs, day, 6, |pairs|);
      var j := NthOfDay(pairs, day, 7, |pairs|);
      if j < k { UsedIncreases(pairs, j, k); }
      assert Overlap(EventAt(pairs, k, courses), EventAt(pairs, j, courses));
    }
  }
}
