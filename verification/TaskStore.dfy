/** The task table, the snapshot the agents see of it, and the effect of approving a plan twice. */
module TaskStore {
  import opened Prelude
  import opened Assembly
  import opened Calendar

  datatype CourseRef = CourseRef(id: string, name: string)

  type Table = map<string, StudyTask>

  // ---- The snapshot ----

  /** The table's rows in some order. */
  ghost predicate Lists(rows: seq<StudyTask>, table: Table) {
    (forall r | r in rows :: r.id in table && table[r.id] == r) && (forall id | id in table :: table[id] in rows)
  }

  /** Every stored task carries its own key. */
  predicate Keyed(table: Table) { forall id | id in table :: table[id].id == id }

  function OfCourse(rows: seq<StudyTask>, course: Option<string>): seq<StudyTask> {
    if |rows| == 0 then []
    else
      var front, r := OfCourse(rows[..|rows| - 1], course), rows[|rows| - 1];
      if r.course == course then front + [r] else front
  }

  function StartDay(r: StudyTask): int { r.startAt / MINUTES_PER_DAY }

  function Views(rows: seq<StudyTask>, status: Status): seq<TaskView> {
    if |rows| == 0 then []
    else
      var front, r := Views(rows[..|rows| - 1], status), rows[|rows| - 1];
      if r.status == status then front + [TaskView(r.id, r.title, StartDay(r))] else front
  }

  /** One course of the shared state: finished tasks, then those still to do; skipped ones are not shown. */
  function CourseShown(c: CourseRef, rows: seq<StudyTask>): CourseView {
    var own := OfCourse(rows, Some(c.id));
    CourseView(Some(c.id), c.name, Views(own, Finished) + Views(own, Todo))
  }

  function Snapshot(courses: seq<CourseRef>, rows: seq<StudyTask>): seq<CourseView> {
    seq(|courses|, i requires 0 <= i < |courses| => CourseShown(courses[i], rows))
  }

  function Bucket(buckets: map<Option<string>, seq<StudyTask>>, course: Option<string>): seq<StudyTask> {
    if course in buckets then buckets[course] else []
  }

  method SharedState(courses: seq<CourseRef>, rows: seq<StudyTask>) returns (views: seq<CourseView>)
    ensures views == Snapshot(courses, rows)
  {
    var buckets: map<Option<string>, seq<StudyTask>> := map[];
    for i := 0 to |rows|
      invariant forall c :: Bucket(buckets, c) == OfCourse(rows[..i], c)
    {
      assert rows[..i + 1][..i] == rows[..i];
      buckets := buckets[rows[i].course := Bucket(buckets, rows[i].course) + [rows[i]]];
    }
    assert rows[..|rows|] == rows;
    views := [];
    for i := 0 to |courses|
      invariant views == Snapshot(courses, rows)[..i]
    {
      var own := Bucket(buckets, Some(courses[i].id));
      views := views + [CourseView(Some(courses[i].id), courses[i].name, Views(own, Finished) + Views(own, Todo))];
    }
  }

  /** A task the agents can see under this course and title. */
  predicate Visible(r: StudyTask, course: Option<string>, title: string) {
    r.course == course && r.title == title && r.status != Skipped
  }

  /** The task starts on the given day, if one is given. */
  predicate Starts(day: int, when: Option<int>) { when.None? || day == when.value }

  predicate ShownIn(tasks: seq<TaskView>, title: string, when: Option<int>, id: string) {
    exists j :: 0 <= j < |tasks| && tasks[j].title == title && tasks[j].id == id && Starts(tasks[j].day, when)
  }

  lemma {:induction false} OfCourseHolds(rows: seq<StudyTask>, course: Option<string>, r: StudyTask)
    ensures r in OfCourse(rows, course) <==> r in rows && r.course == course
  {
    if |rows| > 0 {
      OfCourseHolds(rows[..|rows| - 1], course, r);
      assert rows == rows[..|rows| - 1] + [rows[|rows| - 1]];
    }
  }

  lemma {:induction false} ViewsHold(rows: seq<StudyTask>, status: Status, title: string, when: Option<int>, id: string)
    ensures ShownIn(Views(rows, status), title, when, id) <==>
            exists r | r in rows :: r.status == status && r.title == title && r.id == id && Starts(StartDay(r), when)
  {
    if |rows| > 0 {
      var front, r := rows[..|rows| - 1], rows[|rows| - 1];
      ViewsHold(front, status, title, when, id);
      assert rows == front + [r];
      var v := TaskView(r.id, r.title, StartDay(r));
      ShownInAppend(Views(front, status), [v], title, when, id);
      ShownInOne(v, title, when, id);
      if r.status == status && r.title == title && r.id == id && Starts(StartDay(r), when) { assert r in rows; }
    }
  }

  lemma ShownInAppend(a: seq<TaskView>, b: seq<TaskView>, title: string, when: Option<int>, id: string)
    ensures ShownIn(a + b, title, when, id) <==> ShownIn(a, title, when, id) || ShownIn(b, title, when, id)
  {
    var c := a + b;
    if ShownIn(a, title, when, id) {
      var j :| 0 <= j < |a| && a[j].title == title && a[j].id == id && Starts(a[j].day, when);
      assert c[j] == a[j];
    }
    if ShownIn(b, title, when, id) {
      var j :| 0 <= j < |b| && b[j].title == title && b[j].id == id && Starts(b[j].day, when);
      assert c[|a| + j] == b[j];
    }
  }

  lemma ShownInOne(v: TaskView, title: string, when: Option<int>, id: string)
    ensures ShownIn([v], title, when, id) <==> v.title == title && v.id == id && Starts(v.day, when)
  {
    assert [v][0] == v;
  }

  lemma CourseShows(c: CourseRef, rows: seq<StudyTask>, title: string, when: Option<int>, id: string)
    ensures ShownIn(CourseShown(c, rows).tasks, title, when, id) <==>
            exists r | r in rows :: Visible(r, Some(c.id), title) && Starts(StartDay(r), when) && r.id == id
  {
    var own := OfCourse(rows, Some(c.id));
    ViewsHold(own, Finished, title, when, id);
    ViewsHold(own, Todo, title, when, id);
    ShownInAppend(Views(own, Finished), Views(own, Todo), title, when, id);
    forall r ensures r in own <==> r in rows && r.course == Some(c.id) { OfCourseHolds(rows, Some(c.id), r); }
  }

  // ---- What the indexes hold ----

  lemma ShownInSnoc(front: seq<TaskView>, t: TaskView, title: string, when: Option<int>, id: string)
    ensures ShownIn(front + [t], title, when, id) <==>
            ShownIn(front, title, when, id) || (t.title == title && t.id == id && Starts(t.day, when))
  {
    ShownInAppend(front, [t], title, when, id);
    ShownInOne(t, title, when, id);
  }

  lemma {:induction false} TitledHolds(tasks: seq<TaskView>, course: Option<string>, m: map<TitleKey, string>,
                                       key: TitleKey)
    requires key.1 != ""
    ensures key in Titled(tasks, course, m) <==>
            key in m || (key.0 == course && exists id :: ShownIn(tasks, key.1, None, id))
    ensures key in Titled(tasks, course, m) ==>
              (key in m && Titled(tasks, course, m)[key] == m[key]) ||
              (key.0 == course && ShownIn(tasks, key.1, None, Titled(tasks, course, m)[key]))
  {
    if |tasks| > 0 {
      var front, t := tasks[..|tasks| - 1], tasks[|tasks| - 1];
      TitledHolds(front, course, m, key);
      assert tasks == front + [t];
      forall id ensures ShownIn(tasks, key.1, None, id) <==>
                        ShownIn(front, key.1, None, id) || (t.title == key.1 && t.id == id && Starts(t.day, None))
      {
        ShownInSnoc(front, t, key.1, None, id);
      }
      if t.title == key.1 { assert ShownIn(tasks, key.1, None, t.id); }
    }
  }

  lemma {:induction false} IndexedHolds(tasks: seq<TaskView>, course: Option<string>, m: map<DatedKey, string>,
                                        key: DatedKey)
    requires key.1 != ""
    ensures key in Indexed(tasks, course, m) <==>
            key in m || (key.0 == course && exists id :: ShownIn(tasks, key.1, Some(key.2), id))
    ensures key in Indexed(tasks, course, m) ==>
              (key in m && Indexed(tasks, course, m)[key] == m[key]) ||
              (key.0 == course && ShownIn(tasks, key.1, Some(key.2), Indexed(tasks, course, m)[key]))
  {
    if |tasks| > 0 {
      var front, t := tasks[..|tasks| - 1], tasks[|tasks| - 1];
      IndexedHolds(front, course, m, key);
      assert tasks == front + [t];
      forall id ensures ShownIn(tasks, key.1, Some(key.2), id) <==>
                        ShownIn(front, key.1, Some(key.2), id) ||
                        (t.title == key.1 && t.id == id && Starts(t.day, Some(key.2)))
      {
        ShownInSnoc(front, t, key.1, Some(key.2), id);
      }
      if t.title == key.1 && t.day == key.2 { assert ShownIn(tasks, key.1, Some(key.2), t.id); }
    }
  }

  /** Some listed task is visible under this course and title, on the given day if one is given, with this id. */
  ghost predicate Seen(courses: seq<CourseRef>, rows: seq<StudyTask>, course: Option<string>, title: string,
                       when: Option<int>, id: string)
  {
    (exists i :: 0 <= i < |courses| && Some(courses[i].id) == course) &&
    exists r | r in rows :: Visible(r, course, title) && Starts(StartDay(r), when) && r.id == id
  }

  lemma SeenSnoc(front: seq<CourseRef>, c: CourseRef, rows: seq<StudyTask>, key: TitleKey, when: Option<int>,
                 id: string)
    ensures Seen(front + [c], rows, key.0, key.1, when, id) <==>
            Seen(front, rows, key.0, key.1, when, id) ||
            (key.0 == Some(c.id) && ShownIn(CourseShown(c, rows).tasks, key.1, when, id))
  {
    CourseShows(c, rows, key.1, when, id);
    var all := front + [c];
    if i :| 0 <= i < |front| && Some(front[i].id) == key.0 { assert all[i] == front[i]; }
    assert all[|front|] == c;
  }

  /** A title is indexed exactly when a visible task of that course carries it, and then under such a task's id. */
  lemma {:induction false} SnapshotTitles(courses: seq<CourseRef>, rows: seq<StudyTask>, key: TitleKey)
    requires key.1 != ""
    ensures var index := TitleIndex(Snapshot(courses, rows));
            (key in index <==> exists id :: Seen(courses, rows, key.0, key.1, None, id)) &&
            (key in index ==> Seen(courses, rows, key.0, key.1, None, index[key]))
  {
    if |courses| > 0 {
      var n := |courses| - 1;
      var c, front := courses[n], courses[..n];
      SnapshotTitles(front, rows, key);
      assert Snapshot(courses, rows)[..n] == Snapshot(front, rows);
      TitledHolds(CourseShown(c, rows).tasks, Some(c.id), TitleIndex(Snapshot(front, rows)), key);
      forall id ensures Seen(courses, rows, key.0, key.1, None, id) <==>
                        Seen(front, rows, key.0, key.1, None, id) ||
                        (key.0 == Some(c.id) && ShownIn(CourseShown(c, rows).tasks, key.1, None, id))
      {
        SeenSnoc(front, c, rows, key, None, id);
        assert courses == front + [c];
      }
    }
  }

  /** A dated entry exists exactly when such a task starts on that day, and carries the id of one that does. */
  lemma {:induction false} SnapshotDates(courses: seq<CourseRef>, rows: seq<StudyTask>, key: DatedKey)
    requires key.1 != ""
    ensures var index := DatedIndex(Snapshot(courses, rows));
            (key in index <==> exists id :: Seen(courses, rows, key.0, key.1, Some(key.2), id)) &&
            (key in index ==> Seen(courses, rows, key.0, key.1, Some(key.2), index[key]))
  {
    if |courses| > 0 {
      var n, when := |courses| - 1, Some(key.2);
      var c, front := courses[n], courses[..n];
      SnapshotDates(front, rows, key);
      assert Snapshot(courses, rows)[..n] == Snapshot(front, rows);
      IndexedHolds(CourseShown(c, rows).tasks, Some(c.id), DatedIndex(Snapshot(front, rows)), key);
      forall id ensures Seen(courses, rows, key.0, key.1, when, id) <==>
                        Seen(front, rows, key.0, key.1, when, id) ||
                        (key.0 == Some(c.id) && ShownIn(CourseShown(c, rows).tasks, key.1, when, id))
      {
        SeenSnoc(front, c, rows, (key.0, key.1), when, id);
        assert courses == front + [c];
      }
    }
  }

  lemma {:induction false} ResolvedCourseIsListed(courses: seq<CourseRef>, rows: seq<StudyTask>, name: string)
    ensures var id := CourseIdOf(Snapshot(courses, rows), name);
            id.Some? ==> exists i :: 0 <= i < |courses| && Some(courses[i].id) == id
  {
    if |courses| > 0 {
      var n := |courses| - 1;
      ResolvedCourseIsListed(courses[..n], rows, name);
      assert Snapshot(courses, rows)[..n] == Snapshot(courses[..n], rows);
      assert Some(courses[n].id) == Some(courses[n].id);
    }
  }

  /** An event names an existing task exactly when its course resolves and a task is visible under its course and
      title; it names one of those, and one that already starts on the event's day whenever there is such a task. */
  lemma EventIdentity(pairs: seq<Item>, k: nat, courses: seq<CourseRef>, rows: seq<StudyTask>)
    requires k < |pairs|
    ensures var e := EventAt(pairs, k, Snapshot(courses, rows));
            (e.id.Some? <==> e.course.Some? && exists r | r in rows :: Visible(r, e.course, e.title)) &&
            (e.id.Some? ==> exists r | r in rows :: Visible(r, e.course, e.title) && r.id == e.id.value) &&
            (e.id.Some? && (exists r | r in rows :: Visible(r, e.course, e.title) && StartDay(r) == pairs[k].day) ==>
               exists r | r in rows ::
                 Visible(r, e.course, e.title) && StartDay(r) == pairs[k].day && r.id == e.id.value)
  {
    var e, day := EventAt(pairs, k, Snapshot(courses, rows)), pairs[k].day;
    ResolvedCourseIsListed(courses, rows, pairs[k].course);
    SnapshotTitles(courses, rows, (e.course, e.title));
    SnapshotDates(courses, rows, (e.course, e.title, day));
    if e.course.Some? {
      if r :| r in rows && Visible(r, e.course, e.title) {
        assert Starts(StartDay(r), None);
        assert Seen(courses, rows, e.course, e.title, None, r.id);
      }
      if r :| r in rows && Visible(r, e.course, e.title) && StartDay(r) == day {
        assert Starts(StartDay(r), Some(day));
        assert Seen(courses, rows, e.course, e.title, Some(day), r.id);
      }
    }
  }

  // ---- Open tasks come before finished ones ----

  lemma {:induction false} TitledAppend(a: seq<TaskView>, b: seq<TaskView>, course: Option<string>,
                                        m: map<TitleKey, string>)
    ensures Titled(a + b, course, m) == Titled(b, course, Titled(a, course, m))
  {
    if |b| == 0 {
      assert a + b == a;
    } else {
      TitledAppend(a, b[..|b| - 1], course, m);
      assert (a + b)[..|a + b| - 1] == a + b[..|b| - 1];
    }
  }

  lemma {:induction false} IndexedAppend(a: seq<TaskView>, b: seq<TaskView>, course: Option<string>,
                                         m: map<DatedKey, string>)
    ensures Indexed(a + b, course, m) == Indexed(b, course, Indexed(a, course, m))
  {
    if |b| == 0 {
      assert a + b == a;
    } else {
      IndexedAppend(a, b[..|b| - 1], course, m);
      assert (a + b)[..|a + b| - 1] == a + b[..|b| - 1];
    }
  }

  /** A task in the list replaces whatever the index held before. */
  lemma {:induction false} TitledReplaces(tasks: seq<TaskView>, course: Option<string>, m: map<TitleKey, string>,
                                          title: string, id: string)
    requires title != "" && ShownIn(tasks, title, None, id)
    ensures var index := Titled(tasks, course, m);
            (course, title) in index && ShownIn(tasks, title, None, index[(course, title)])
  {
    var front, t := tasks[..|tasks| - 1], tasks[|tasks| - 1];
    var index := Titled(tasks, course, m);
    assert tasks == front + [t];
    ShownInSnoc(front, t, title, None, id);
    if t.title == title {
      ShownInSnoc(front, t, title, None, t.id);
    } else {
      TitledReplaces(front, course, m, title, id);
      ShownInSnoc(front, t, title, None, index[(course, title)]);
    }
  }

  lemma {:induction false} IndexedReplaces(tasks: seq<TaskView>, course: Option<string>, m: map<DatedKey, string>,
                                           title: string, day: int, id: string)
    requires title != "" && ShownIn(tasks, title, Some(day), id)
    ensures var index := Indexed(tasks, course, m);
            (course, title, day) in index && ShownIn(tasks, title, Some(day), index[(course, title, day)])
  {
    var front, t := tasks[..|tasks| - 1], tasks[|tasks| - 1];
    var index := Indexed(tasks, course, m);
    assert tasks == front + [t];
    ShownInSnoc(front, t, title, Some(day), id);
    if t.title == title && t.day == day {
      ShownInSnoc(front, t, title, Some(day), t.id);
    } else {
      IndexedReplaces(front, course, m, title, day, id);
      ShownInSnoc(front, t, title, Some(day), index[(course, title, day)]);
    }
  }

  /** An open task of this course and title, starting on the given day if one is given. */
  predicate Open(r: StudyTask, course: Option<string>, title: string, when: Option<int>) {
    r.course == course && r.title == title && r.status == Todo && Starts(StartDay(r), when)
  }

  lemma OpenIsShown(c: CourseRef, rows: seq<StudyTask>, r: StudyTask, title: string, when: Option<int>)
    requires r in rows && Open(r, Some(c.id), title, when)
    ensures ShownIn(Views(OfCourse(rows, Some(c.id)), Todo), title, when, r.id)
  {
    OfCourseHolds(rows, Some(c.id), r);
    ViewsHold(OfCourse(rows, Some(c.id)), Todo, title, when, r.id);
  }

  lemma ShownIsOpen(c: CourseRef, rows: seq<StudyTask>, title: string, when: Option<int>, id: string)
    requires ShownIn(Views(OfCourse(rows, Some(c.id)), Todo), title, when, id)
    ensures exists r | r in rows :: Open(r, Some(c.id), title, when) && r.id == id
  {
    var own := OfCourse(rows, Some(c.id));
    ViewsHold(own, Todo, title, when, id);
    var r :| r in own && r.status == Todo && r.title == title && r.id == id && Starts(StartDay(r), when);
    OfCourseHolds(rows, Some(c.id), r);
    assert Open(r, Some(c.id), title, when);
  }

  /** As long as a listed course has an open task of a title, its title is indexed under an open one; and likewise for
      a title and day. */
  lemma {:induction false} OpenTasksFirst(courses: seq<CourseRef>, rows: seq<StudyTask>, r: StudyTask, c: CourseRef)
    requires r in rows && c in courses && r.title != "" && Open(r, Some(c.id), r.title, None)
    ensures var index, key := TitleIndex(Snapshot(courses, rows)), (r.course, r.title);
            key in index && exists x | x in rows :: Open(x, r.course, r.title, None) && x.id == index[key]
    ensures var index, key := DatedIndex(Snapshot(courses, rows)), (r.course, r.title, StartDay(r));
            key in index && exists x | x in rows :: Open(x, r.course, r.title, Some(StartDay(r))) && x.id == index[key]
  {
    var n := |courses| - 1;
    var front, last := courses[..n], courses[n];
    assert courses == front + [last];
    assert Snapshot(courses, rows)[..n] == Snapshot(front, rows);
    if last.id == c.id {
      LastCourseOpen(front, last, rows, r);
    } else {
      OpenTasksFirst(front, rows, r, c);
      OtherCourseKeeps(front, last, rows, r);
    }
  }

  lemma LastCourseOpen(front: seq<CourseRef>, last: CourseRef, rows: seq<StudyTask>, r: StudyTask)
    requires r in rows && r.title != "" && Open(r, Some(last.id), r.title, None)
    ensures var index := Titled(CourseShown(last, rows).tasks, Some(last.id), TitleIndex(Snapshot(front, rows)));
            (r.course, r.title) in index &&
            exists x | x in rows :: Open(x, r.course, r.title, None) && x.id == index[(r.course, r.title)]
    ensures var index := Indexed(CourseShown(last, rows).tasks, Some(last.id), DatedIndex(Snapshot(front, rows)));
            var key := (r.course, r.title, StartDay(r));
            key in index && exists x | x in rows :: Open(x, r.course, r.title, Some(StartDay(r))) && x.id == index[key]
  {
    var own, day := OfCourse(rows, Some(last.id)), StartDay(r);
    var finished, open := Views(own, Finished), Views(own, Todo);
    var titles, dated := TitleIndex(Snapshot(front, rows)), DatedIndex(Snapshot(front, rows));
    TitledAppend(finished, open, r.course, titles);
    IndexedAppend(finished, open, r.course, dated);
    OpenIsShown(last, rows, r, r.title, None);
    OpenIsShown(last, rows, r, r.title, Some(day));
    TitledReplaces(open, r.course, Titled(finished, r.course, titles), r.title, r.id);
    IndexedReplaces(open, r.course, Indexed(finished, r.course, dated), r.title, day, r.id);
    ShownIsOpen(last, rows, r.title, None, Titled(finished + open, r.course, titles)[(r.course, r.title)]);
    ShownIsOpen(last, rows, r.title, Some(day), Indexed(finished + open, r.course, dated)[(r.course, r.title, day)]);
  }

  lemma OtherCourseKeeps(front: seq<CourseRef>, last: CourseRef, rows: seq<StudyTask>, r: StudyTask)
    requires r.title != "" && r.course != Some(last.id)
    requires (r.course, r.title) in TitleIndex(Snapshot(front, rows))
    requires (r.course, r.title, StartDay(r)) in DatedIndex(Snapshot(front, rows))
    ensures var key, before := (r.course, r.title), TitleIndex(Snapshot(front, rows));
            var index := Titled(CourseShown(last, rows).tasks, Some(last.id), before);
            key in index && index[key] == before[key]
    ensures var key, before := (r.course, r.title, StartDay(r)), DatedIndex(Snapshot(front, rows));
            var index := Indexed(CourseShown(last, rows).tasks, Some(last.id), before);
            key in index && index[key] == before[key]
  {
    TitledHolds(CourseShown(last, rows).tasks, Some(last.id), TitleIndex(Snapshot(front, rows)), (r.course, r.title));
    IndexedHolds(CourseShown(last, rows).tasks, Some(last.id), DatedIndex(Snapshot(front, rows)),
                 (r.course, r.title, StartDay(r)));
  }

  /** An event never reopens a finished task while an open one would do: it names an open task of its work on its own
      day when there is one, and one on any day when nothing of its work is on its own day. */
  lemma EventPrefersOpen(pairs: seq<Item>, k: nat, courses: seq<CourseRef>, rows: seq<StudyTask>, r: StudyTask)
    requires k < |pairs| && r in rows
    requires var e := EventAt(pairs, k, Snapshot(courses, rows)); e.course.Some? && Open(r, e.course, e.title, None)
    requires var e := EventAt(pairs, k, Snapshot(courses, rows));
             StartDay(r) == pairs[k].day ||
             forall x | x in rows && Visible(x, e.course, e.title) :: StartDay(x) != pairs[k].day
    ensures var e := EventAt(pairs, k, Snapshot(courses, rows));
            exists x | x in rows :: Open(x, e.course, e.title, None) && e.id == Some(x.id)
  {
    var e, day := EventAt(pairs, k, Snapshot(courses, rows)), pairs[k].day;
    ResolvedCourseIsListed(courses, rows, pairs[k].course);
    var i :| 0 <= i < |courses| && Some(courses[i].id) == e.course;
    OpenTasksFirst(courses, rows, r, courses[i]);
    SnapshotDates(courses, rows, (e.course, e.title, day));
  }
}
