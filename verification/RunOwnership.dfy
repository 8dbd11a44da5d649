/** Whose draft an approval writes when run ids may collide: an exact account for every run of turns. */
module RunOwnership {
  import opened Prelude
  import opened Calendar
  import opened Workflow
  import opened WorkflowLaws

  /** The run turn `k` executes, if it reaches the graph. */
  function RanAt(turns: seq<Turn>, k: nat): Option<string>
    requires k < |turns|
  {
    var reached := Reaches(After(turns[..k]), turns[k]);
    if reached.Some? then Some(reached.value.0) else None
  }

  /** The last turn before `n` that executed `run`, on whatever thread. */
  function LastRan(turns: seq<Turn>, n: nat, run: string): Option<nat>
    requires n <= |turns|
  {
    if n == 0 then None
    else if RanAt(turns, n - 1) == Some(run) then Some(n - 1) else LastRan(turns, n - 1, run)
  }

  lemma {:induction false} LastRanIsLast(turns: seq<Turn>, n: nat, run: string, m: nat)
    requires n <= |turns|
    ensures LastRan(turns, n, run) == Some(m) <==>
            m < n && RanAt(turns, m) == Some(run) && forall j | m < j < n :: RanAt(turns, j) != Some(run)
  {
    if n > 0 { LastRanIsLast(turns, n - 1, run, m); }
  }

  lemma {:induction false} LastRanExists(turns: seq<Turn>, n: nat, run: string, m: nat)
    requires m < n <= |turns| && RanAt(turns, m) == Some(run)
    ensures LastRan(turns, n, run).Some? && m <= LastRan(turns, n, run).value < n
  {
    if m < n - 1 { LastRanExists(turns, n - 1, run, m); }
  }

  /** Only the run a turn executes has its checkpoint changed. */
  lemma CheckpointsAfter(s: State, turn: Turn, run: string)
    ensures var saved, reached := Handled(s, turn).0.checkpoints, Reaches(s, turn);
            if reached.Some? && reached.value.0 == run
            then (run in saved <==> reached.value.1.stopped.Some?) &&
                 (run in saved ==> saved[run] == reached.value.1.stopped.value)
            else (run in saved <==> run in s.checkpoints) && (run in saved ==> saved[run] == s.checkpoints[run])
  {}

  /** The checkpoint of a run is what the last turn that executed it asked, and there is none when that turn asked
      nothing. */
  lemma {:induction false} CheckpointIsLastAsked(turns: seq<Turn>, n: nat, run: string)
    requires n <= |turns|
    ensures var saved, last := After(turns[..n]).checkpoints, LastRan(turns, n, run);
            (last.Some? ==> last.value < n) &&
            (run in saved <==> last.Some? && Asked(Output(turns, last.value)).Some?) &&
            (run in saved ==> saved[run] == Asked(Output(turns, last.value)).value)
  {
    if n > 0 {
      var s, turn := After(turns[..n - 1]), turns[n - 1];
      CheckpointIsLastAsked(turns, n - 1, run);
      AfterStep(turns, n - 1);
      TurnWrites(s, turn);
      CheckpointsAfter(s, turn, run);
    }
  }

  /** A paused thread waits on its last question, in the run that asked it, and has not executed that run since. */
  ghost predicate WaitsOnLastShown(turns: seq<Turn>, n: nat, t: string, waiting: Paused)
    requires n <= |turns|
  {
    var shown := LastShown(turns, n, t);
    shown.Some? && shown.value.0 < n && turns[shown.value.0].thread == t && shown.value.1 == waiting.pending &&
    Asked(Output(turns, shown.value.0)) == Some(waiting.pending) && RanAt(turns, shown.value.0) == Some(waiting.run) &&
    forall j | shown.value.0 < j < n && turns[j].thread == t :: RanAt(turns, j) != Some(waiting.run)
  }

  /** A thread still paused after its own turn either was just asked, or was already waiting on a run the turn left
      alone. */
  lemma OwnTurnLeaves(s: State, turn: Turn)
    requires turn.thread in Handled(s, turn).0.paused
    ensures var waiting, reached := Handled(s, turn).0.paused[turn.thread], Reaches(s, turn);
            if reached.Some? && reached.value.1.stopped.Some?
            then waiting == Paused(reached.value.0, reached.value.1.stopped.value)
            else turn.thread in s.paused && waiting == s.paused[turn.thread] &&
                 (reached.Some? ==> reached.value.0 != waiting.run)
  {}

  /** A turn on another thread, or one that asks nothing and leaves the run alone, keeps a thread waiting. */
  lemma KeepsWaiting(turns: seq<Turn>, n: nat, t: string, waiting: Paused)
    requires n < |turns| && WaitsOnLastShown(turns, n, t, waiting)
    requires turns[n].thread == t ==> Asked(Output(turns, n)).None? && RanAt(turns, n) != Some(waiting.run)
    ensures WaitsOnLastShown(turns, n + 1, t, waiting)
  {
    assert LastShown(turns, n + 1, t) == LastShown(turns, n, t);
  }

  lemma {:induction false} PausedIsLastShown(turns: seq<Turn>, n: nat, t: string)
    requires n <= |turns| && t in After(turns[..n]).paused
    ensures WaitsOnLastShown(turns, n, t, After(turns[..n]).paused[t])
  {
    if n > 0 {
      var s, turn := After(turns[..n - 1]), turns[n - 1];
      var reached := Reaches(s, turn);
      AfterStep(turns, n - 1);
      TurnWrites(s, turn);
      if t == turn.thread { OwnTurnLeaves(s, turn); } else { OnlyOwnRunTouched(s, turn, t); }
      if t == turn.thread && reached.Some? && reached.value.1.stopped.Some? {
        assert LastShown(turns, n, t) == Some((n - 1, reached.value.1.stopped.value));
      } else {
        PausedIsLastShown(turns, n - 1, t);
        KeepsWaiting(turns, n - 1, t, s.paused[t]);
      }
    }
  }

  /** No other thread executed the run after turn `m`. */
  ghost predicate Undisturbed(turns: seq<Turn>, m: nat, n: nat, t: string, run: string)
    requires n <= |turns|
  {
    forall j | m < j < n && turns[j].thread != t :: RanAt(turns, j) != Some(run)
  }

  /** What approving a question writes. */
  function Approved(asked: Option<Pending>, courses: seq<CourseView>): seq<Upsert> {
    if asked.Some? && asked.value.CalendarApproval? then Events(asked.value.plan, courses) else []
  }

  /** Turn `k` answers its thread's paused run with approving words. */
  ghost predicate SaysYes(turns: seq<Turn>, k: nat)
    requires k < |turns|
  {
    var turn := turns[k];
    turn.kind.Chat? && !turn.injected && turn.decision.understood && turn.decision.answersPending &&
    Affirmative(turn.text) && turn.thread in After(turns[..k]).paused
  }

  /** An approval writes what the last turn executing its run asked; that turn is the one that showed the thread its
      draft exactly when no other thread executed the run in between. */
  lemma ApprovalWritesOwnDraftIff(turns: seq<Turn>, k: nat)
    requires k < |turns| && SaysYes(turns, k)
    ensures var t := turns[k].thread;
            var run, shown := After(turns[..k]).paused[t].run, LastShown(turns, k, t);
            var last := LastRan(turns, k, run);
            shown.Some? && shown.value.0 < k && last.Some? && shown.value.0 <= last.value < k &&
            Writes(Output(turns, k)) == Approved(Asked(Output(turns, last.value)), turns[k].courses) &&
            (last.value == shown.value.0 <==> Undisturbed(turns, shown.value.0, k, t, run)) &&
            (Undisturbed(turns, shown.value.0, k, t, run) ==>
               Writes(Output(turns, k)) == Approved(Some(shown.value.1), turns[k].courses))
  {
    var t := turns[k].thread;
    var run, shown := After(turns[..k]).paused[t].run, LastShown(turns, k, t);
    PausedIsLastShown(turns, k, t);
    LastRanExists(turns, k, run, shown.value.0);
    LastRanIsLast(turns, k, run, shown.value.0);
    CheckpointIsLastAsked(turns, k, run);
    TurnWrites(After(turns[..k]), turns[k]);
  }
}
