/** Turning numbered sessions into course tasks, schedule rows and calendar items. */
module Assembly {
  import opened Prelude
  import opened Text
  import opened OpenDay
  import opened Sessions
  import opened Numbering

  datatype Task = Task(title: string, description: string, day: int)

  datatype Row = Row(candidate: string, course: string, title: string, day: int, number: int, total: int,
                     reason: Reason, mastery: Option<real>, pages: Option<int>, priority: real)

  /** One event/day pair. */
  datatype Item = Item(title: string, kind: string, course: string, description: string, day: int)

  datatype Assessment = Assessment(course: string, title: string, kind: string, day: Option<int>)

  predicate AssembleBefore(a: Session, b: Session) {
    a.day < b.day ||
    (a.day == b.day &&
     if a.candidate == b.candidate then a.number <= b.number else StrLe(a.candidate, b.candidate))
  }

  function AssembleOrder(sessions: seq<Session>): seq<Session> { SortBy(AssembleBefore, sessions) }

  function TitleFor(c: Candidate, s: Session): string { PrintedTitle(c.title, s.number, Max(1, s.total)) }

  function DescriptionFor(c: Candidate, s: Session): string {
    var focus := Strip(s.focus);
    if focus != "" then c.description + " Focus: " + focus else c.description
  }

  function TaskFor(c: Candidate, s: Session): Task { Task(TitleFor(c, s), DescriptionFor(c, s), s.day) }

  function RowFor(c: Candidate, s: Session): Row {
    Row(c.id, c.courseName, TitleFor(c, s), s.day, s.number, Max(1, s.total), c.reason, c.mastery, c.length, c.priority)
  }

  function ItemFor(c: Candidate, s: Session): Item {
    Item(TitleFor(c, s), "study", c.courseName, DescriptionFor(c, s), s.day)
  }

  function Capitalised(s: string): string {
    if |s| > 0 && 'a' <= s[0] <= 'z' then [(s[0] as int - 32) as char] + s[1..] else s
  }

  // ---- The three views of a list of sessions ----

  function Tasks(s: seq<Session>, byId: map<string, Candidate>, course: nat): seq<Task> {
    if |s| == 0 then []
    else
      var front, x := Tasks(s[..|s| - 1], byId, course), s[|s| - 1];
      if x.candidate in byId && byId[x.candidate].course == course
      then front + [TaskFor(byId[x.candidate], x)] else front
  }

  function Rows(s: seq<Session>, byId: map<string, Candidate>): seq<Row> {
    if |s| == 0 then []
    else
      var front, x := Rows(s[..|s| - 1], byId), s[|s| - 1];
      if x.candidate in byId then front + [RowFor(byId[x.candidate], x)] else front
  }

  function Items(s: seq<Session>, byId: map<string, Candidate>): seq<Item> {
    if |s| == 0 then []
    else
      var front, x := Items(s[..|s| - 1], byId), s[|s| - 1];
      if x.candidate in byId then front + [ItemFor(byId[x.candidate], x)] else front
  }

  /** Only assessments with a date reach the calendar. */
  function AssessmentItems(assessments: seq<Assessment>): seq<Item> {
    if |assessments| == 0 then []
    else
      var front, a := AssessmentItems(assessments[..|assessments| - 1]), assessments[|assessments| - 1];
      if a.day.Some?
      then front + [Item(a.title, a.kind, a.course, Capitalised(a.kind) + ": " + a.title, a.day.value)] else front
  }

  method Assemble(sessions: seq<Session>, candidates: seq<Candidate>, assessments: seq<Assessment>, courses: nat)
    returns (scheduled: seq<seq<Task>>, rows: seq<Row>, items: seq<Item>)
    requires forall c | c in candidates :: c.course < courses
    ensures |scheduled| == courses
    ensures forall i | 0 <= i < courses :: scheduled[i] == Tasks(AssembleOrder(sessions), ById(candidates), i)
    ensures rows == Rows(AssembleOrder(sessions), ById(candidates))
    ensures items == Items(AssembleOrder(sessions), ById(candidates)) + AssessmentItems(assessments)
  {
    var byId := ById(candidates);
    ByIdHolds(candidates);
    scheduled := seq(courses, _ => []);
    rows, items := [], [];
    var ordered := AssembleOrder(sessions);
    for i := 0 to |ordered|
      invariant |scheduled| == courses
      invariant forall k | 0 <= k < courses :: scheduled[k] == Tasks(ordered[..i], byId, k)
      invariant rows == Rows(ordered[..i], byId) && items == Items(ordered[..i], byId)
    {
      var session := ordered[i];
      assert ordered[..i + 1][..i] == ordered[..i];
      if session.candidate in byId {
        var c := byId[session.candidate];
        scheduled := scheduled[c.course := scheduled[c.course] + [TaskFor(c, session)]];
        rows := rows + [RowFor(c, session)];
        items := items + [ItemFor(c, session)];
      }
    }
    assert ordered[..|ordered|] == ordered;
    ghost var study := items;
    for i := 0 to |assessments|
      invariant items == study + AssessmentItems(assessments[..i])
    {
      var a := assessments[i];
      assert assessments[..i + 1][..i] == assessments[..i];
      if a.day.Some? {
        items := items + [Item(a.title, a.kind, a.course, Capitalised(a.kind) + ": " + a.title, a.day.value)];
      }
    }
    assert assessments[..|assessments|] == assessments;
  }

  // ---- Conservation and order ----

  ghost predicate AllKnown(s: seq<Session>, byId: map<string, Candidate>) {
    forall k | 0 <= k < |s| :: s[k].candidate in byId
  }

  lemma {:induction false} RowsPointwise(s: seq<Session>, byId: map<string, Candidate>)
    requires AllKnown(s, byId)
    ensures |Rows(s, byId)| == |s|
    ensures forall k | 0 <= k < |s| :: Rows(s, byId)[k] == RowFor(byId[s[k].candidate], s[k])
  {
    if |s| > 0 {
      var n := |s| - 1;
      var front, row := Rows(s[..n], byId), RowFor(byId[s[n].candidate], s[n]);
      RowsPointwise(s[..n], byId);
      assert Rows(s, byId) == front + [row];
      forall k | 0 <= k < |s| ensures (front + [row])[k] == RowFor(byId[s[k].candidate], s[k]) {
        if k < n { assert s[..n][k] == s[k]; }
      }
    }
  }

  lemma {:induction false} ItemsSize(s: seq<Session>, byId: map<string, Candidate>)
    requires AllKnown(s, byId)
    ensures |Items(s, byId)| == |s|
  {
    if |s| > 0 { ItemsSize(s[..|s| - 1], byId); }
  }

  lemma ItemsOfLonger(s: seq<Session>, byId: map<string, Candidate>)
    requires |s| > 0 && s[|s| - 1].candidate in byId
    ensures var x := s[|s| - 1]; Items(s, byId) == Items(s[..|s| - 1], byId) + [ItemFor(byId[x.candidate], x)]
  {}

  lemma AppendedAt<T>(front: seq<T>, last: T, k: nat)
    requires k <= |front|
    ensures (front + [last])[k] == if k < |front| then front[k] else last
  {}

  lemma {:induction false} ItemAt(s: seq<Session>, byId: map<string, Candidate>, k: nat)
    requires AllKnown(s, byId) && k < |s|
    ensures |Items(s, byId)| == |s| && Items(s, byId)[k] == ItemFor(byId[s[k].candidate], s[k])
  {
    var front, x := s[..|s| - 1], s[|s| - 1];
    ItemsSize(front, byId);
    ItemsOfLonger(s, byId);
    AppendedAt(Items(front, byId), ItemFor(byId[x.candidate], x), k);
    if k < |front| { ItemAt(front, byId, k); }
  }

  lemma {:induction false} TasksHold(s: seq<Session>, byId: map<string, Candidate>, course: nat, x: Session)
    requires x in s && x.candidate in byId && byId[x.candidate].course == course
    ensures TaskFor(byId[x.candidate], x) in Tasks(s, byId, course)
  {
    var n := |s| - 1;
    if s[n] != x {
      assert s == s[..n] + [s[n]];
      TasksHold(s[..n], byId, course, x);
    }
  }

  /** The title of a session's task: numbered when its work spans several sessions. */
  predicate Reads(title: string, c: Candidate, x: Session) {
    (x.total <= 1 ==> title == c.title) &&
    (x.total > 1 && x.number >= 0 ==>
       title == c.title + " (session " + Dec(x.number) + " of " + Dec(x.total) + ")")
  }

  /** The description of a session's task: that of its work, and the focus if the session has one. */
  predicate Describes(description: string, c: Candidate, x: Session) {
    description == if Blank(x.focus) then c.description else c.description + " Focus: " + Strip(x.focus)
  }

  lemma PrintedReads(c: Candidate, x: Session)
    ensures Reads(TitleFor(c, x), c, x) && Describes(DescriptionFor(c, x), c, x)
  {
    if x.total > 1 && x.number >= 0 {
      assert TitleFor(c, x) == c.title + " (session " + Dec(x.number) + " of " + Dec(x.total) + ")";
    }
  }

  /** The three views agree on every session: its day, its title, its description, in the task list of its own
      course. */
  lemma ViewsAgree(s: seq<Session>, byId: map<string, Candidate>, k: nat)
    requires AllKnown(s, byId) && k < |s|
    ensures |Rows(s, byId)| == |Items(s, byId)| == |s|
    ensures var c, x, row, item := byId[s[k].candidate], s[k], Rows(s, byId)[k], Items(s, byId)[k];
            Reads(item.title, c, x) && Describes(item.description, c, x) &&
            item.kind == "study" && item.course == row.course == c.courseName && item.day == row.day == x.day &&
            row.title == item.title && row.candidate == c.id && row.number == x.number &&
            row.total == Max(1, x.total) && row.priority == c.priority &&
            Task(item.title, item.description, x.day) in Tasks(s, byId, c.course)
  {
    RowsPointwise(s, byId);
    ItemAt(s, byId, k);
    TasksHold(s, byId, byId[s[k].candidate].course, s[k]);
    PrintedReads(byId[s[k].candidate], s[k]);
  }

  /** Tasks of the first `courses` courses together. */
  function TaskTotal(s: seq<Session>, byId: map<string, Candidate>, courses: nat): nat {
    if courses == 0 then 0 else TaskTotal(s, byId, courses - 1) + |Tasks(s, byId, courses - 1)|
  }

  lemma TasksSnoc(s: seq<Session>, x: Session, byId: map<string, Candidate>, course: nat)
    requires x.candidate in byId
    ensures |Tasks(s + [x], byId, course)| ==
            |Tasks(s, byId, course)| + if byId[x.candidate].course == course then 1 else 0
  {
    var more := s + [x];
    assert more[..|more| - 1] == s && more[|more| - 1] == x;
  }

  lemma {:induction false} TaskTotalSnoc(s: seq<Session>, x: Session, byId: map<string, Candidate>, courses: nat)
    requires x.candidate in byId
    ensures TaskTotal(s + [x], byId, courses) ==
            TaskTotal(s, byId, courses) + if byId[x.candidate].course < courses then 1 else 0
  {
    if courses == 0 {
    } else {
      var more, n := s + [x], courses - 1;
      TaskTotalSnoc(s, x, byId, n);
      assert TaskTotal(more, byId, courses) == TaskTotal(more, byId, n) + |Tasks(more, byId, n)|;
      assert TaskTotal(s, byId, courses) == TaskTotal(s, byId, n) + |Tasks(s, byId, n)|;
      TasksSnoc(s, x, byId, n);
    }
  }

  lemma {:induction false} TaskTotalIsSize(s: seq<Session>, byId: map<string, Candidate>, courses: nat)
    requires AllKnown(s, byId) && forall id | id in byId :: byId[id].course < courses
    ensures TaskTotal(s, byId, courses) == |s|
  {
    if |s| == 0 {
      NoTasks(byId, courses);
    } else {
      var front, x := s[..|s| - 1], s[|s| - 1];
      TaskTotalIsSize(front, byId, courses);
      TaskTotalSnoc(front, x, byId, courses);
      assert s == front + [x] && byId[x.candidate].course < courses;
    }
  }

  lemma {:induction false} NoTasks(byId: map<string, Candidate>, courses: nat)
    ensures TaskTotal([], byId, courses) == 0
  {
    if courses > 0 { NoTasks(byId, courses - 1); }
  }

  lemma OrderIsPermutation(sessions: seq<Session>, byId: map<string, Candidate>)
    ensures |AssembleOrder(sessions)| == |sessions|
    ensures multiset(AssembleOrder(sessions)) == multiset(sessions)
    ensures AllKnown(sessions, byId) ==> AllKnown(AssembleOrder(sessions), byId)
  {
    SortPermutes(AssembleBefore, sessions);
    var s := AssembleOrder(sessions);
    if AllKnown(sessions, byId) {
      forall k | 0 <= k < |s| ensures s[k].candidate in byId {
        assert s[k] in multiset(s);
        assert s[k] in multiset(sessions);
      }
    }
  }

  /** Exactly one task, one schedule row and one calendar item per session. */
  lemma OneOfEachPerSession(sessions: seq<Session>, candidates: seq<Candidate>, courses: nat)
    requires AllKnown(sessions, ById(candidates)) && forall c | c in candidates :: c.course < courses
    ensures var s, byId := AssembleOrder(sessions), ById(candidates);
            |Rows(s, byId)| == |Items(s, byId)| == TaskTotal(s, byId, courses) == |sessions|
  {
    var s, byId := AssembleOrder(sessions), ById(candidates);
    OrderIsPermutation(sessions, byId);
    RowsPointwise(s, byId);
    ItemsSize(s, byId);
    ByIdHolds(candidates);
    TaskTotalIsSize(s, byId, courses);
  }

  lemma AssembleOrderIsTotal()
    ensures TotalPreorder(AssembleBefore)
  {
    forall a: Session, b: Session ensures AssembleBefore(a, b) || AssembleBefore(b, a) {
      StrLeTotal(a.candidate, b.candidate);
    }
    forall a: Session, b: Session, c: Session | AssembleBefore(a, b) && AssembleBefore(b, c)
      ensures AssembleBefore(a, c)
    {
      var x, y, z := a.candidate, b.candidate, c.candidate;
      StrLeTotal(x, y);
      StrLeTotal(y, z);
      if StrLe(x, y) && StrLe(y, z) { StrLeTransitive(x, y, z); }
      StrLeTotal(x, z);
    }
  }

  lemma RenumberedOccurOnce(p: seq<Session>, x: Session)
    ensures multiset(Renumbered(p))[x] <= 1
  {
    var r := Renumbered(p);
    forall i, j | 0 <= i < j < |r| ensures r[i] != r[j] {
      if p[i].candidate == p[j].candidate { RenumberedInDateOrder(p, i, j); }
    }
    DistinctOccurOnce(r, x);
  }

  lemma FromRenumbered(p: seq<Session>, x: Session) returns (k: nat)
    requires x in AssembleOrder(Renumbered(p))
    ensures k < |p| && Renumbered(p)[k] == x
  {
    var r := Renumbered(p);
    OrderIsPermutation(r, map[]);
    assert x in multiset(AssembleOrder(r));
    assert x in multiset(r);
    k :| k < |r| && r[k] == x;
  }

  lemma NumbersInDateOrder(p: seq<Session>, i: nat, j: nat)
    requires i < j < |AssembleOrder(Renumbered(p))|
    ensures var s := AssembleOrder(Renumbered(p));
            s[i].day <= s[j].day && (s[i].candidate == s[j].candidate ==> s[i].number < s[j].number)
  {
    var r := Renumbered(p);
    var s := AssembleOrder(r);
    AssembleOrderIsTotal();
    SortOrders(AssembleBefore, r);
    assert AssembleBefore(s[i], s[j]);
    if s[i].candidate == s[j].candidate {
      OrderIsPermutation(r, map[]);
      forall x ensures multiset(s)[x] <= 1 { RenumberedOccurOnce(p, x); }
      OccurOnceDistinct(s, i, j);
      var a := FromRenumbered(p, s[i]);
      var b := FromRenumbered(p, s[j]);
      RenumberedInDateOrder(p, a, b);
    }
  }

  /** Rows of a renumbered plan come in date order, and each candidate's numbers strictly increase along them. */
  lemma RowsInDateOrder(p: seq<Session>, candidates: seq<Candidate>, i: nat, j: nat)
    requires AllKnown(Renumbered(p), ById(candidates)) && i < j < |p|
    ensures var rows := Rows(AssembleOrder(Renumbered(p)), ById(candidates));
            |rows| == |p| && rows[i].day <= rows[j].day &&
            (rows[i].candidate == rows[j].candidate ==> rows[i].number < rows[j].number)
  {
    var s, byId := AssembleOrder(Renumbered(p)), ById(candidates);
    OrderIsPermutation(Renumbered(p), byId);
    RowsPointwise(s, byId);
    ByIdHolds(candidates);
    NumbersInDateOrder(p, i, j);
  }

  /** Stripping the number from a printed title recovers the trimmed title of the work. */
  lemma TitlesRecoverWork(c: Candidate, s: Session)
    requires s.number >= 0 && s.total > 1
    ensures BaseTitle(TaskFor(c, s).title) == Strip(c.title)
  {
    BaseTitleOfPrinted(c.title, s.number, s.total);
  }

  // ---- Load of the calendar ----

  function ItemsOn(items: seq<Item>, day: int): nat { Count((x: Item) => x.day == day, items) }

  function DatedOn(assessments: seq<Assessment>, day: int): nat {
    Count((a: Assessment) => a.day == Some(day), assessments)
  }

  lemma {:induction false} TallyCounts(s: seq<Session>, day: int)
    ensures On(Tally(s), day) == Count((x: Session) => x.day == day, s)
  {
    if |s| == 0 {
    } else {
      var n := |s| - 1;
      TallyCounts(s[..n], day);
      CountSnoc((x: Session) => x.day == day, s[..n], s[n]);
      assert s == s[..n] + [s[n]];
    }
  }

  lemma {:induction false} StudyItemsOn(s: seq<Session>, byId: map<string, Candidate>, day: int)
    requires AllKnown(s, byId)
    ensures ItemsOn(Items(s, byId), day) == On(Tally(s), day)
  {
    if |s| == 0 {
    } else {
      var n := |s| - 1;
      StudyItemsOn(s[..n], byId, day);
      CountSnoc((x: Item) => x.day == day, Items(s[..n], byId), ItemFor(byId[s[n].candidate], s[n]));
    }
  }

  lemma {:induction false} AssessmentItemsOn(assessments: seq<Assessment>, day: int)
    ensures ItemsOn(AssessmentItems(assessments), day) == DatedOn(assessments, day)
  {
    if |assessments| == 0 {
    } else {
      var n := |assessments| - 1;
      var a, front := assessments[n], AssessmentItems(assessments[..n]);
      AssessmentItemsOn(assessments[..n], day);
      assert assessments == assessments[..n] + [a];
      CountSnoc((x: Assessment) => x.day == Some(day), assessments[..n], a);
      if a.day.Some? {
        CountSnoc((x: Item) => x.day == day, front,
                  Item(a.title, a.kind, a.course, Capitalised(a.kind) + ": " + a.title, a.day.value));
      }
    }
  }

  /** The item of a dated assessment. */
  predicate Announces(item: Item, a: Assessment) {
    a.day == Some(item.day) && item.title == a.title && item.kind == a.kind && item.course == a.course
  }

  /** The calendar announces exactly the dated assessments, each on its own day. */
  lemma {:induction false} AssessmentsAnnounced(assessments: seq<Assessment>)
    ensures forall a | a in assessments && a.day.Some? ::
              exists item | item in AssessmentItems(assessments) :: Announces(item, a)
    ensures forall item | item in AssessmentItems(assessments) :: exists a | a in assessments :: Announces(item, a)
  {
    if |assessments| > 0 {
      var front, last := assessments[..|assessments| - 1], assessments[|assessments| - 1];
      var items := AssessmentItems(assessments);
      AssessmentsAnnounced(front);
      assert assessments == front + [last];
      forall a | a in assessments && a.day.Some? ensures exists item | item in items :: Announces(item, a) {
        if a in front {
          var item :| item in AssessmentItems(front) && Announces(item, a);
          assert item in items;
        } else {
          assert Announces(items[|items| - 1], a);
        }
      }
      forall item | item in items ensures exists a | a in assessments :: Announces(item, a) {
        if item in AssessmentItems(front) {
          var a :| a in front && Announces(item, a);
          assert a in assessments;
        } else {
          assert Announces(item, last);
        }
      }
    }
  }

  /** A calendar day carries the sessions placed on it plus the assessments dated on it. */
  lemma CalendarLoad(sessions: seq<Session>, candidates: seq<Candidate>, assessments: seq<Assessment>, day: int)
    requires AllKnown(sessions, ById(candidates))
    ensures ItemsOn(Items(AssembleOrder(sessions), ById(candidates)) + AssessmentItems(assessments), day) ==
            On(Tally(sessions), day) + DatedOn(assessments, day)
  {
    var s := AssembleOrder(sessions);
    OrderIsPermutation(sessions, ById(candidates));
    StudyItemsOn(s, ById(candidates), day);
    AssessmentItemsOn(assessments, day);
    CountAppend((x: Item) => x.day == day, Items(s, ById(candidates)), AssessmentItems(assessments));
    TallyCounts(s, day);
    TallyCounts(sessions, day);
    CountSort((x: Session) => x.day == day, AssembleBefore, sessions);
  }
}
