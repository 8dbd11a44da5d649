/** Safety of the calendar write over every sequential run of turns. */
module WorkflowLaws {
  import opened Prelude
  import opened Text
  import opened Assembly
  import opened Calendar
  import opened Workflow

  // ---- Runs ----

  function After(turns: seq<Turn>): State {
    if |turns| == 0 then State(map[], map[])
    else Handled(After(turns[..|turns| - 1]), turns[|turns| - 1]).0
  }

  /** What turn `k` emits. */
  function Output(turns: seq<Turn>, k: nat): seq<Emission>
    requires k < |turns|
  {
    Handled(After(turns[..k]), turns[k]).1
  }

  /** The calendar writes among a turn's emissions, in order. */
  function Writes(out: seq<Emission>): seq<Upsert> {
    if |out| == 0 then []
    else if out[0].TaskUpsert? then [out[0].event'] + Writes(out[1..]) else Writes(out[1..])
  }

  /** What a turn asked the student to approve or answer, if anything. */
  function Asked(out: seq<Emission>): Option<Pending> {
    if |out| == 0 then None
    else
      var later := Asked(out[1..]);
      if later.Some? then later else if out[0].ApprovalRequired? then Some(out[0].pending) else None
  }

  /** The last question shown on a thread before turn `n`, with the turn that showed it. */
  function LastShown(turns: seq<Turn>, n: nat, thread: string): Option<(nat, Pending)>
    requires n <= |turns|
  {
    if n == 0 then None
    else if turns[n - 1].thread == thread && Asked(Output(turns, n - 1)).Some?
    then Some((n - 1, Asked(Output(turns, n - 1)).value))
    else LastShown(turns, n - 1, thread)
  }

  /** The last turn before `n` that wrote to the calendar on a thread's behalf. */
  function LastWrite(turns: seq<Turn>, n: nat, thread: string): Option<nat>
    requires n <= |turns|
  {
    if n == 0 then None
    else if turns[n - 1].thread == thread && Writes(Output(turns, n - 1)) != [] then Some(n - 1)
    else LastWrite(turns, n - 1, thread)
  }

  /** Runs of different threads never share an id. */
  ghost predicate SeparateRuns(turns: seq<Turn>) {
    forall i, j | 0 <= i < |turns| && 0 <= j < |turns| && turns[i].thread != turns[j].thread ::
      RunId(turns[i].thread, turns[i].request) != RunId(turns[j].thread, turns[j].request)
  }

  /** A longer thread id shares a run with a shorter one exactly when the shorter one, a colon and the start of its
      request id make up the longer one. */
  lemma RunsCollideIff(a: string, x: string, b: string, y: string)
    requires |a| < |b|
    ensures RunId(a, x) == RunId(b, y) <==> exists p :: b == a + ":" + p && x == p + ":" + y
  {
    var s, t := RunId(a, x), RunId(b, y);
    if s == t {
      var p := b[|a| + 1..];
      assert s[..|a|] == a && s[|a|] == ':' && s[|a| + 1..] == x;
      assert t[..|b|] == b && t[|b|..] == ":" + y;
      assert b == b[..|a|] + [b[|a|]] + p;
      assert x == p + ":" + y;
    }
    if p :| b == a + ":" + p && x == p + ":" + y { assert s == a + ":" + p + ":" + y == t; }
  }

  /** Threads of equal length never share a run, whatever the request ids. */
  lemma SameLengthRunsDiffer(a: string, x: string, b: string, y: string)
    requires |a| == |b| && RunId(a, x) == RunId(b, y)
    ensures a == b
  {
    assert RunId(a, x)[..|a|] == a && RunId(b, y)[..|b|] == b;
  }

  /** A shared run needs a colon both in a thread id and in a request id. */
  lemma CollisionNeedsColons(a: string, x: string, b: string, y: string)
    requires a != b && RunId(a, x) == RunId(b, y)
    ensures (':' in a && ':' in y) || (':' in b && ':' in x)
  {
    if |a| < |b| {
      RunsCollideIff(a, x, b, y);
      var p :| b == a + ":" + p && x == p + ":" + y;
      assert b[|a|] == ':' && x[|p|] == ':';
    } else if |b| < |a| {
      RunsCollideIff(b, y, a, x);
      var p :| a == b + ":" + p && y == p + ":" + x;
      assert a[|b|] == ':' && y[|p|] == ':';
    } else {
      SameLengthRunsDiffer(a, x, b, y);
      assert false;
    }
  }

  /** Request ids as the service makes them: the text of a UUID, which holds no colon. */
  ghost predicate ColonFreeRequests(turns: seq<Turn>) {
    forall i | 0 <= i < |turns| :: ':' !in turns[i].request
  }

  /** Without colons in the request ids, or without colons in the thread ids, no two threads share a run. */
  lemma SeparateWithoutColons(turns: seq<Turn>)
    requires ColonFreeRequests(turns) || forall i | 0 <= i < |turns| :: ':' !in turns[i].thread
    ensures SeparateRuns(turns)
  {
    forall i, j | 0 <= i < |turns| && 0 <= j < |turns| && turns[i].thread != turns[j].thread
      ensures RunId(turns[i].thread, turns[i].request) != RunId(turns[j].thread, turns[j].request)
    {
      if RunId(turns[i].thread, turns[i].request) == RunId(turns[j].thread, turns[j].request) {
        CollisionNeedsColons(turns[i].thread, turns[i].request, turns[j].thread, turns[j].request);
      }
    }
  }

  /** The service's requests keep the runs of different threads apart, whatever the thread ids. */
  lemma ColonFreeRequestsAreSeparate(turns: seq<Turn>)
    requires ColonFreeRequests(turns)
    ensures SeparateRuns(turns)
  {
    SeparateWithoutColons(turns);
  }

  /** So would thread ids without a colon, whatever the request ids. */
  lemma ColonFreeThreadsAreSeparate(turns: seq<Turn>)
    requires forall i | 0 <= i < |turns| :: ':' !in turns[i].thread
    ensures SeparateRuns(turns)
  {
    SeparateWithoutColons(turns);
  }

  // ---- What one turn emits ----

  lemma {:induction false} WritesAppend(a: seq<Emission>, b: seq<Emission>)
    ensures Writes(a + b) == Writes(a) + Writes(b)
  {
    if |a| == 0 {
      assert a + b == b;
    } else {
      assert (a + b)[1..] == a[1..] + b;
      WritesAppend(a[1..], b);
    }
  }

  lemma {:induction false} AskedAppend(a: seq<Emission>, b: seq<Emission>)
    ensures Asked(a + b) == if Asked(b).Some? then Asked(b) else Asked(a)
  {
    if |a| == 0 {
      assert a + b == b;
    } else {
      assert (a + b)[1..] == a[1..] + b;
      AskedAppend(a[1..], b);
    }
  }

  lemma {:induction false} SidesAreSilent(events: seq<SideEvent>)
    ensures Writes(Sides(events)) == [] && Asked(Sides(events)) == None
  {
    if |events| > 0 {
      SidesAreSilent(events[1..]);
      assert Sides(events)[1..] == Sides(events[1..]);
    }
  }

  lemma {:induction false} UpsertsAreWrites(events: seq<Upsert>)
    ensures Writes(Upserts(events)) == events && Asked(Upserts(events)) == None
  {
    if |events| > 0 {
      UpsertsAreWrites(events[1..]);
      assert Upserts(events)[1..] == Upserts(events[1..]);
      assert events == [events[0]] + events[1..];
    }
  }

  /** A turn that approves the draft its thread is paused on. */
  predicate Approving(s: State, turn: Turn) {
    turn.kind.Chat? && !turn.injected && turn.thread in s.paused &&
    turn.decision.understood && turn.decision.answersPending &&
    s.paused[turn.thread].run in s.checkpoints &&
    s.checkpoints[s.paused[turn.thread].run].CalendarApproval? && Affirmative(turn.text)
  }

  lemma SilentOne(e: SideEvent)
    ensures Writes([Side(e)]) == [] && Asked([Side(e)]) == None
  {
    assert [Side(e)][1..] == [];
  }

  lemma AskingTail(p: Pending)
    ensures Writes([ApprovalRequired(p), Side(Reply)]) == [] && Asked([ApprovalRequired(p), Side(Reply)]) == Some(p)
  {
    assert [ApprovalRequired(p), Side(Reply)][1..] == [Side(Reply)];
    SilentOne(Reply);
  }

  lemma NewRunIsSilent(turn: Turn, checked: bool)
    ensures Writes(NewRun(turn, checked).events) == [] && Asked(NewRun(turn, checked).events) == None
  {
    SilentOne(Reply);
    SidesAreSilent(turn.answer);
  }

  lemma ResumeWrites(pending: Pending, turn: Turn)
    ensures var r := ResumePlanning(pending, turn);
            Asked(r.events) == None &&
            Writes(r.events) == (if pending.CalendarApproval? && Affirmative(turn.text)
                                 then Events(pending.plan, turn.courses) else []) &&
            (Writes(r.events) != [] ==> r.stopped.None?)
  {
    SilentOne(Reply);
    if pending.CalendarApproval? && Affirmative(turn.text) {
      var events := Events(pending.plan, turn.courses);
      UpsertsAreWrites(events);
      WritesAppend(Upserts(events), [Side(Reply)]);
      AskedAppend(Upserts(events), [Side(Reply)]);
    }
  }

  lemma InvokeEmits(s: State, turn: Turn, run: string, r: GraphResult)
    requires Asked(r.events) == None
    ensures Writes(Invoke(s, turn, run, r).1) == Writes(r.events)
    ensures Asked(Invoke(s, turn, run, r).1) == r.stopped
  {
    if r.stopped.Some? {
      AskingTail(r.stopped.value);
      WritesAppend(r.events, [ApprovalRequired(r.stopped.value), Side(Reply)]);
      AskedAppend(r.events, [ApprovalRequired(r.stopped.value), Side(Reply)]);
    }
  }

  /** The run a turn executes and what comes of it, when it reaches the graph at all. */
  function Reaches(s: State, turn: Turn): Option<(string, GraphResult)> {
    var t := turn.thread;
    if turn.kind.Chat? && turn.injected then None
    else if turn.kind.Chat? && t in s.paused then
      if !turn.decision.understood then None
      else if turn.decision.answersPending then
        var run := s.paused[t].run;
        Some((run, if run in s.checkpoints then ResumePlanning(s.checkpoints[run], turn) else GraphResult([], None)))
      else Some((RunId(t, turn.request), NewRun(turn, true)))
    else Some((RunId(t, turn.request), NewRun(turn, false)))
  }

  /** The calendar is written only by an approving turn, and then with exactly the events of the checkpointed plan. */
  lemma TurnWrites(s: State, turn: Turn)
    ensures Writes(Handled(s, turn).1) ==
            if Approving(s, turn) then Events(s.checkpoints[s.paused[turn.thread].run].plan, turn.courses) else []
    ensures Asked(Handled(s, turn).1) == (if Reaches(s, turn).Some? then Reaches(s, turn).value.1.stopped else None)
    ensures Writes(Handled(s, turn).1) != [] ==> Asked(Handled(s, turn).1).None?
  {
    SilentOne(Reply);
    match Reaches(s, turn)
    case None =>
    case Some(reached) =>
      var (run, r) := reached;
      NewRunIsSilent(turn, true);
      NewRunIsSilent(turn, false);
      if turn.thread in s.paused && s.paused[turn.thread].run in s.checkpoints {
        ResumeWrites(s.checkpoints[s.paused[turn.thread].run], turn);
      }
      InvokeEmits(s, turn, run, r);
      InvokeEmits(s.(paused := s.paused - {turn.thread}), turn, run, r);
  }

  // ---- The invariant ----

  /** A paused thread waits in one of its own runs, on the last question it was shown, not yet answered by a write. */
  ghost predicate Waiting(turns: seq<Turn>, n: nat, s: State, t: string)
    requires n <= |turns| && t in s.paused
  {
    s.paused[t].run in s.checkpoints && s.checkpoints[s.paused[t].run] == s.paused[t].pending &&
    (exists j :: 0 <= j < n && turns[j].thread == t && s.paused[t].run == RunId(t, turns[j].request)) &&
    LastShown(turns, n, t).Some? && LastShown(turns, n, t).value.1 == s.paused[t].pending &&
    (LastWrite(turns, n, t).Some? ==> LastWrite(turns, n, t).value < LastShown(turns, n, t).value.0)
  }

  ghost predicate Consistent(turns: seq<Turn>, n: nat)
    requires n <= |turns|
  {
    forall t | t in After(turns[..n]).paused :: Waiting(turns, n, After(turns[..n]), t)
  }

  lemma AfterStep(turns: seq<Turn>, n: nat)
    requires n < |turns|
    ensures After(turns[..n + 1]) == Handled(After(turns[..n]), turns[n]).0
  {
    assert turns[..n + 1][..n] == turns[..n];
  }

  /** A turn touches only its own thread's entry and its own run's checkpoint. */
  lemma OnlyOwnRunTouched(s: State, turn: Turn, t: string)
    requires t != turn.thread
    requires t in Handled(s, turn).0.paused
    ensures t in s.paused && Handled(s, turn).0.paused[t] == s.paused[t]
    ensures var run := s.paused[t].run;
            run in s.checkpoints && (Reaches(s, turn).Some? ==> Reaches(s, turn).value.0 != run) ==>
            run in Handled(s, turn).0.checkpoints && Handled(s, turn).0.checkpoints[run] == s.checkpoints[run]
  {}

  /** Separate threads run separately. */
  lemma ReachedRunIsOwn(turns: seq<Turn>, n: nat, t: string)
    requires n < |turns| && SeparateRuns(turns) && Consistent(turns, n)
    requires t != turns[n].thread && t in After(turns[..n]).paused
    ensures var s := After(turns[..n]);
            Reaches(s, turns[n]).Some? ==> Reaches(s, turns[n]).value.0 != s.paused[t].run
  {
    var s, turn := After(turns[..n]), turns[n];
    assert Waiting(turns, n, s, t);
    var j :| 0 <= j < n && turns[j].thread == t && s.paused[t].run == RunId(t, turns[j].request);
    assert RunId(turns[j].thread, turns[j].request) != RunId(turn.thread, turn.request);
    if turn.thread in s.paused {
      assert Waiting(turns, n, s, turn.thread);
      var i :| 0 <= i < n && turns[i].thread == turn.thread &&
               s.paused[turn.thread].run == RunId(turn.thread, turns[i].request);
      assert RunId(turns[j].thread, turns[j].request) != RunId(turns[i].thread, turns[i].request);
    }
  }

  /** Another thread's turn leaves a waiting thread waiting. */
  lemma OthersKeepWaiting(turns: seq<Turn>, n: nat, t: string)
    requires n < |turns| && SeparateRuns(turns) && Consistent(turns, n)
    requires t != turns[n].thread && t in Handled(After(turns[..n]), turns[n]).0.paused
    ensures Waiting(turns, n + 1, Handled(After(turns[..n]), turns[n]).0, t)
  {
    var s := After(turns[..n]);
    OnlyOwnRunTouched(s, turns[n], t);
    assert Waiting(turns, n, s, t);
    ReachedRunIsOwn(turns, n, t);
    assert LastShown(turns, n + 1, t) == LastShown(turns, n, t) && LastWrite(turns, n + 1, t) == LastWrite(turns, n, t);
    var j :| 0 <= j < n && turns[j].thread == t && s.paused[t].run == RunId(t, turns[j].request);
    assert 0 <= j < n + 1 && turns[j].thread == t;
  }

  /** A thread that is paused after its own turn waits on the question that turn left standing. */
  lemma OwnTurnWaits(turns: seq<Turn>, n: nat)
    requires n < |turns| && SeparateRuns(turns) && Consistent(turns, n)
    requires turns[n].thread in Handled(After(turns[..n]), turns[n]).0.paused
    ensures Waiting(turns, n + 1, Handled(After(turns[..n]), turns[n]).0, turns[n].thread)
  {
    var s, turn := After(turns[..n]), turns[n];
    var t := turn.thread;
    TurnWrites(s, turn);
    if t in s.paused { assert Waiting(turns, n, s, t); }
    LastWriteBefore(turns, n, t);
    match Reaches(s, turn)
    case None =>
    case Some(reached) =>
      var (run, r) := reached;
      if r.stopped.Some? {
        assert exists j :: 0 <= j < n + 1 && turns[j].thread == t && run == RunId(t, turns[j].request) by {
          if run == RunId(t, turn.request) {
            assert turns[n].thread == t && run == RunId(t, turns[n].request);
          } else {
            var j :| 0 <= j < n && turns[j].thread == t && s.paused[t].run == RunId(t, turns[j].request);
          }
        }
      }
  }

  lemma {:induction false} LastWriteBefore(turns: seq<Turn>, n: nat, t: string)
    requires n <= |turns|
    ensures LastWrite(turns, n, t).Some? ==> LastWrite(turns, n, t).value < n
    ensures LastShown(turns, n, t).Some? ==> LastShown(turns, n, t).value.0 < n
  {
    if n > 0 { LastWriteBefore(turns, n - 1, t); }
  }

  lemma {:induction false} AlwaysConsistent(turns: seq<Turn>, n: nat)
    requires n <= |turns| && SeparateRuns(turns)
    ensures Consistent(turns, n)
  {
    if n == 0 {
    } else {
      AlwaysConsistent(turns, n - 1);
      AfterStep(turns, n - 1);
      forall t | t in After(turns[..n]).paused ensures Waiting(turns, n, After(turns[..n]), t) {
        if t == turns[n - 1].thread { OwnTurnWaits(turns, n - 1); } else { OthersKeepWaiting(turns, n - 1, t); }
      }
    }
  }

  // ---- The theorems, for separate runs ----

  /** Every calendar write is an approval, in the student's own words, of the last draft shown on that thread. */
  lemma WritesAreApprovedDrafts(turns: seq<Turn>, k: nat)
    requires k < |turns| && SeparateRuns(turns) && Writes(Output(turns, k)) != []
    ensures var turn, shown := turns[k], LastShown(turns, k, turns[k].thread);
            turn.kind.Chat? && !turn.injected && turn.decision.understood && turn.decision.answersPending &&
            Affirmative(turn.text) && shown.Some? && shown.value.1.CalendarApproval? &&
            Writes(Output(turns, k)) == Events(shown.value.1.plan, turn.courses)
  {
    AlwaysConsistent(turns, k);
    TurnWrites(After(turns[..k]), turns[k]);
    assert Waiting(turns, k, After(turns[..k]), turns[k].thread);
  }

  /** A draft is written at most once: between two writes on a thread, a new draft was shown there. */
  lemma EachDraftWrittenOnce(turns: seq<Turn>, m: nat, k: nat)
    requires m < k < |turns| && SeparateRuns(turns) && turns[m].thread == turns[k].thread
    requires Writes(Output(turns, m)) != [] && Writes(Output(turns, k)) != []
    ensures var shown := LastShown(turns, k, turns[k].thread);
            shown.Some? && m < shown.value.0 < k
  {
    AlwaysConsistent(turns, k);
    TurnWrites(After(turns[..k]), turns[k]);
    assert Waiting(turns, k, After(turns[..k]), turns[k].thread);
    LastWriteBefore(turns, k, turns[k].thread);
    LastWriteCovers(turns, m, k);
  }

  lemma {:induction false} LastWriteCovers(turns: seq<Turn>, m: nat, k: nat)
    requires m < k <= |turns| && Writes(Output(turns, m)) != []
    ensures LastWrite(turns, k, turns[m].thread).Some? && LastWrite(turns, k, turns[m].thread).value >= m
  {
    if m < k - 1 { LastWriteCovers(turns, m, k - 1); }
  }

  /** Approving words on a thread waiting for approval do write the plan, whole and in order. */
  lemma ApprovalIsHonoured(turns: seq<Turn>, k: nat)
    requires k < |turns| && SeparateRuns(turns)
    requires var t := turns[k];
             t.kind.Chat? && !t.injected && t.decision.understood && t.decision.answersPending && Affirmative(t.text) &&
             t.thread in After(turns[..k]).paused && After(turns[..k]).paused[t.thread].pending.CalendarApproval?
    ensures Writes(Output(turns, k)) ==
            Events(After(turns[..k]).paused[turns[k].thread].pending.plan, turns[k].courses)
    ensures turns[k].thread !in After(turns[..k + 1]).paused
  {
    AlwaysConsistent(turns, k);
    assert Waiting(turns, k, After(turns[..k]), turns[k].thread);
    TurnWrites(After(turns[..k]), turns[k]);
    AfterStep(turns, k);
  }

  // ---- The supervisor over a whole run ----

  /** A new supervisor taken through the turns, one after the other: its state and all it emits are those of the run. */
  method RunTurns(turns: seq<Turn>) returns (supervisor: Supervisor, outputs: seq<seq<Emission>>)
    ensures fresh(supervisor) && supervisor.Now() == After(turns)
    ensures |outputs| == |turns| && forall k | 0 <= k < |turns| :: outputs[k] == Output(turns, k)
  {
    supervisor := new Supervisor();
    outputs := [];
    for k := 0 to |turns|
      invariant fresh(supervisor) && supervisor.Now() == After(turns[..k])
      invariant |outputs| == k && forall j | 0 <= j < k :: outputs[j] == Output(turns, j)
    {
      AfterStep(turns, k);
      var out := supervisor.Handle(turns[k]);
      outputs := outputs + [out];
    }
    assert turns[..|turns|] == turns;
  }

  // ---- The theorems, for every run of the service ----

  /** At every point of every run: a paused thread waits in a run of its own, on the last question it was shown, and no
      write has answered that question. */
  lemma PausedThreadsWait(turns: seq<Turn>, n: nat)
    requires n <= |turns| && ColonFreeRequests(turns)
    ensures forall t | t in After(turns[..n]).paused :: Waiting(turns, n, After(turns[..n]), t)
  {
    ColonFreeRequestsAreSeparate(turns);
    AlwaysConsistent(turns, n);
  }

  /** Turn `k` is a student's approving chat message. */
  predicate ApprovingMessage(turn: Turn) {
    turn.kind.Chat? && !turn.injected && turn.decision.understood && turn.decision.answersPending &&
    Affirmative(turn.text)
  }

  /** A turn writes exactly when it is an approving message on a thread whose last shown question is a draft it still
      waits on; it then writes that draft, whole and in order, and the thread waits no more. */
  lemma WritesExactlyApprovedDrafts(turns: seq<Turn>, k: nat)
    requires k < |turns| && ColonFreeRequests(turns)
    ensures var turn, paused := turns[k], After(turns[..k]).paused;
            var shown := LastShown(turns, k, turn.thread);
            var approves := ApprovingMessage(turn) && turn.thread in paused &&
                            shown.Some? && shown.value.1.CalendarApproval?;
            Writes(Output(turns, k)) == (if approves then Events(shown.value.1.plan, turn.courses) else []) &&
            (approves ==> turn.thread !in After(turns[..k + 1]).paused)
  {
    var s, turn := After(turns[..k]), turns[k];
    ColonFreeRequestsAreSeparate(turns);
    TurnWrites(s, turn);
    if turn.thread in s.paused {
      PausedThreadsWait(turns, k);
      assert Waiting(turns, k, s, turn.thread);
      if ApprovingMessage(turn) && s.paused[turn.thread].pending.CalendarApproval? { ApprovalIsHonoured(turns, k); }
    }
    if Writes(Output(turns, k)) != [] { WritesAreApprovedDrafts(turns, k); }
  }

  /** A draft is written at most once: between two writes on a thread, a new question was shown there. */
  lemma NoDraftWrittenTwice(turns: seq<Turn>, m: nat, k: nat)
    requires m < k < |turns| && ColonFreeRequests(turns) && turns[m].thread == turns[k].thread
    requires Writes(Output(turns, m)) != [] && Writes(Output(turns, k)) != []
    ensures var shown := LastShown(turns, k, turns[k].thread);
            shown.Some? && m < shown.value.0 < k
  {
    ColonFreeRequestsAreSeparate(turns);
    EachDraftWrittenOnce(turns, m, k);
  }

  // ---- Request ids the service does not make ----

  function Draft1(thread: string, request: string, plan: seq<Item>): Turn {
    Turn(thread, request, Chat, "plan my week", false, Decision(true, false), ToPlanning, Draft(plan), [], [])
  }

  function SayYes(thread: string): Turn {
    Turn(thread, "r", Chat, "yes", false, Decision(true, true), ToPlanning, Explained, [], [])
  }

  /** If a request id held a colon, two threads could share a run id, and approving on one writes the draft shown on
      the other. */
  lemma CollidingRunsCrossWrite(mine: seq<Item>, theirs: seq<Item>)
    ensures var turns := [Draft1("a", "b:c", mine), Draft1("a:b", "c", theirs), SayYes("a")];
            Writes(Output(turns, 2)) == Events(theirs, []) &&
            LastShown(turns, 2, "a") == Some((0, CalendarApproval(mine)))
  {
    var turns := [Draft1("a", "b:c", mine), Draft1("a:b", "c", theirs), SayYes("a")];
    assert RunId("a", "b:c") == "a:b:c" == RunId("a:b", "c");
    assert turns[..0] == [];
    AfterStep(turns, 0);
    AfterStep(turns, 1);
    var s0, s1, s2 := After(turns[..0]), After(turns[..1]), After(turns[..2]);
    assert s1 == State(map["a" := Paused("a:b:c", CalendarApproval(mine))], map["a:b:c" := CalendarApproval(mine)]);
    assert s2.paused["a"] == Paused("a:b:c", CalendarApproval(mine));
    assert s2.checkpoints["a:b:c"] == CalendarApproval(theirs);
    TurnWrites(s0, turns[0]);
    TurnWrites(s1, turns[1]);
    TurnWrites(s2, turns[2]);
    YesIsAffirmative();
  }

  lemma YesIsAffirmative()
    ensures Affirmative("yes")
  {
    StripFixed("yes");
    assert Fold("yes") == "yes";
  }
}
