/** When a thread waits, and what it takes to ask or to write: an account of every turn without the paused table. */
module Pauses {
  import opened Prelude
  import opened Text
  import opened Calendar
  import opened Workflow
  import opened WorkflowLaws
  import opened RunOwnership

  // ---- How long a question stays open ----

  /** Turn `j` ends the wait on the question turn `m` asked: an understood chat message, which answers it or drops it,
      or another execution of the run that asked. */
  predicate Ends(turns: seq<Turn>, m: nat, j: nat)
    requires m < |turns| && j < |turns|
  {
    (turns[j].kind.Chat? && !turns[j].injected && turns[j].decision.understood) || RanAt(turns, j) == RanAt(turns, m)
  }

  /** No turn of the thread after `m` and before `n` ended the wait. */
  ghost predicate StillOpen(turns: seq<Turn>, m: nat, n: nat, t: string)
    requires m < |turns| && n <= |turns|
  {
    forall j | m < j < n && turns[j].thread == t :: !Ends(turns, m, j)
  }

  lemma StillOpenStep(turns: seq<Turn>, m: nat, n: nat, t: string)
    requires m < n < |turns|
    ensures StillOpen(turns, m, n + 1, t) <==>
            StillOpen(turns, m, n, t) && (turns[n].thread == t ==> !Ends(turns, m, n))
  {}

  /** The question a thread has open before turn `n`: the last one shown, unless its wait has ended. */
  ghost function OpenQuestion(turns: seq<Turn>, n: nat, t: string): Option<Pending>
    requires n <= |turns|
  {
    LastWriteBefore(turns, n, t);
    var shown := LastShown(turns, n, t);
    if shown.Some? && StillOpen(turns, shown.value.0, n, t) then Some(shown.value.1) else None
  }

  /** After its own turn a thread waits if the turn asked, or if it waited before and the turn left that alone. */
  lemma OwnTurnPauses(s: State, turn: Turn)
    ensures var t, reached := turn.thread, Reaches(s, turn);
            t in Handled(s, turn).0.paused <==>
            (reached.Some? && reached.value.1.stopped.Some?) ||
            (t in s.paused && !(turn.kind.Chat? && !turn.injected && turn.decision.understood) &&
             (reached.Some? ==> reached.value.0 != s.paused[t].run))
  {}

  lemma OtherTurnPauses(s: State, turn: Turn, t: string)
    requires t != turn.thread
    ensures t in Handled(s, turn).0.paused <==> t in s.paused
  {}

  /** The open question after one more turn: what its own turn asks, else what was open before unless that turn ends
      the wait. */
  lemma OpenStep(turns: seq<Turn>, n: nat, t: string)
    requires n < |turns|
    ensures var own, asked := turns[n].thread == t, Asked(Output(turns, n));
            var before, shown := OpenQuestion(turns, n, t), LastShown(turns, n, t);
            OpenQuestion(turns, n + 1, t) ==
            if own && asked.Some? then asked
            else if own && shown.Some? && shown.value.0 < n && Ends(turns, shown.value.0, n) then None else before
  {
    LastWriteBefore(turns, n, t);
    var shown := LastShown(turns, n, t);
    if shown.Some? { StillOpenStep(turns, shown.value.0, n, t); }
  }

  /** The thread's own turn keeps the pause and the open question together. */
  lemma OwnPauseIsOpen(turns: seq<Turn>, n: nat)
    requires n < |turns|
    requires turns[n].thread in After(turns[..n]).paused <==> OpenQuestion(turns, n, turns[n].thread).Some?
    ensures turns[n].thread in After(turns[..n + 1]).paused <==>
            OpenQuestion(turns, n + 1, turns[n].thread).Some?
  {
    var s, turn := After(turns[..n]), turns[n];
    OpenStep(turns, n, turn.thread);
    LastWriteBefore(turns, n, turn.thread);
    AfterStep(turns, n);
    TurnWrites(s, turn);
    if turn.thread in s.paused { PausedIsLastShown(turns, n, turn.thread); }
    OwnTurnPauses(s, turn);
  }

  lemma OtherPauseIsOpen(turns: seq<Turn>, n: nat, t: string)
    requires n < |turns| && turns[n].thread != t
    requires t in After(turns[..n]).paused <==> OpenQuestion(turns, n, t).Some?
    ensures t in After(turns[..n + 1]).paused <==> OpenQuestion(turns, n + 1, t).Some?
  {
    OpenStep(turns, n, t);
    AfterStep(turns, n);
    OtherTurnPauses(After(turns[..n]), turns[n], t);
  }

  /** A shown question leaves its thread waiting, and the thread waits until the question's wait ends: at every point of
      every run, for any run ids, a thread is paused exactly when it has an open question, and waits on that one. */
  lemma {:induction false} PausedIffOpen(turns: seq<Turn>, n: nat, t: string)
    requires n <= |turns|
    ensures var paused, open := After(turns[..n]).paused, OpenQuestion(turns, n, t);
            (t in paused <==> open.Some?) && (t in paused ==> open == Some(paused[t].pending))
  {
    if n > 0 {
      PausedIffOpen(turns, n - 1, t);
      if turns[n - 1].thread == t { OwnPauseIsOpen(turns, n - 1); } else { OtherPauseIsOpen(turns, n - 1, t); }
    }
    if t in After(turns[..n]).paused { PausedIsLastShown(turns, n, t); }
  }

  // ---- What a turn asks and writes ----

  /** The question a planning result puts to the student. */
  function Question(result: PlanResult): Option<Pending> {
    match result
    case NeedsInput => Some(PlanInput)
    case Draft(plan) => Some(CalendarApproval(plan))
    case Explained => None
  }

  /** What an understood chat message asks, given the question its thread has open: an answer asks what planning comes
      to unless it settles a draft by yes or no, and any other message asks only when it is routed to planning. */
  function NextQuestion(open: Option<Pending>, turn: Turn): Option<Pending> {
    if open.Some? && turn.decision.answersPending then
      if open.value.CalendarApproval? && (Affirmative(turn.text) || Negative(turn.text)) then None
      else Question(turn.planned)
    else if turn.route.ToPlanning? then Question(turn.planned) else None
  }

  /** The question a thread's checkpoint holds, when it waits in a run of its own. */
  function WaitsOn(s: State, t: string): Option<Pending> { if t in s.paused then Some(s.paused[t].pending) else None }

  /** One turn in a state whose checkpoint agrees with the paused table. */
  lemma TurnFromState(s: State, turn: Turn)
    requires turn.thread in s.paused ==>
               var waiting := s.paused[turn.thread];
               waiting.run in s.checkpoints && s.checkpoints[waiting.run] == waiting.pending
    ensures var open, heard := WaitsOn(s, turn.thread), turn.kind.Chat? && !turn.injected && turn.decision.understood;
            Asked(Handled(s, turn).1) == (if heard then NextQuestion(open, turn) else None) &&
            (Approving(s, turn) <==> heard && open.Some? && open.value.CalendarApproval? &&
                                     turn.decision.answersPending && Affirmative(turn.text))
  {
    TurnWrites(s, turn);
  }

  /** The whole account of a turn of the service, from the messages and the questions shown alone: only an understood
      chat message asks or writes; it writes exactly when it says yes to an open draft, and then that draft. */
  lemma TurnIsDetermined(turns: seq<Turn>, k: nat)
    requires k < |turns| && ColonFreeRequests(turns)
    ensures var turn, open := turns[k], OpenQuestion(turns, k, turns[k].thread);
            var heard := turn.kind.Chat? && !turn.injected && turn.decision.understood;
            var approves := heard && open.Some? && open.value.CalendarApproval? && turn.decision.answersPending &&
                            Affirmative(turn.text);
            Asked(Output(turns, k)) == (if heard then NextQuestion(open, turn) else None) &&
            Writes(Output(turns, k)) == (if approves then Events(open.value.plan, turn.courses) else [])
  {
    var s, turn := After(turns[..k]), turns[k];
    ColonFreeRequestsAreSeparate(turns);
    AlwaysConsistent(turns, k);
    PausedIffOpen(turns, k, turn.thread);
    if turn.thread in s.paused { assert Waiting(turns, k, s, turn.thread); }
    TurnFromState(s, turn);
    TurnWrites(s, turn);
  }

  /** The service hands every request an id of its own. */
  ghost predicate DistinctRequests(turns: seq<Turn>) {
    forall i, j | 0 <= i < j < |turns| :: turns[i].request != turns[j].request
  }

  /** Every run was started by a turn of the thread it is executed for. */
  lemma {:induction false} RunOrigin(turns: seq<Turn>, k: nat)
    requires k < |turns| && RanAt(turns, k).Some?
    ensures exists i :: 0 <= i <= k && turns[i].thread == turns[k].thread &&
                        RanAt(turns, k) == Some(RunId(turns[k].thread, turns[i].request))
  {
    var s, t := After(turns[..k]), turns[k].thread;
    if RanAt(turns, k) != Some(RunId(t, turns[k].request)) {
      PausedIsLastShown(turns, k, t);
      RunOrigin(turns, LastShown(turns, k, t).value.0);
    }
  }

  lemma RunNamesRequest(t: string, x: string, y: string)
    requires RunId(t, x) == RunId(t, y)
    ensures x == y
  {
    assert RunId(t, x)[|t| + 1..] == x && RunId(t, y)[|t| + 1..] == y;
  }

  /** With distinct request ids a question stays open until the student says something that is understood: an injected
      message, one that needs clarifying and any other request leave it open. */
  lemma OpenUntilUnderstood(turns: seq<Turn>, n: nat, t: string)
    requires n <= |turns| && DistinctRequests(turns)
    ensures var shown := LastShown(turns, n, t);
            OpenQuestion(turns, n, t).Some? <==>
            shown.Some? && forall j | shown.value.0 < j < n && turns[j].thread == t ::
              !(turns[j].kind.Chat? && !turns[j].injected && turns[j].decision.understood)
  {
    LastWriteBefore(turns, n, t);
    var shown := LastShown(turns, n, t);
    if shown.Some? {
      var m := shown.value.0;
      ShownByOwnTurn(turns, n, t);
      forall j | m < j < n && turns[j].thread == t
        ensures Ends(turns, m, j) <==>
                turns[j].kind.Chat? && !turns[j].injected && turns[j].decision.understood
      {
        if !(turns[j].kind.Chat? && !turns[j].injected && turns[j].decision.understood) { NewRunIsNew(turns, m, j); }
      }
    }
  }

  lemma {:induction false} ShownByOwnTurn(turns: seq<Turn>, n: nat, t: string)
    requires n <= |turns| && LastShown(turns, n, t).Some?
    ensures var m := LastShown(turns, n, t).value.0; m < n && turns[m].thread == t && RanAt(turns, m).Some?
  {
    TurnWrites(After(turns[..n - 1]), turns[n - 1]);
    if turns[n - 1].thread != t || Asked(Output(turns, n - 1)).None? { ShownByOwnTurn(turns, n - 1, t); }
  }

  /** A turn that is no understood chat message executes no run of an earlier turn. */
  lemma NewRunIsNew(turns: seq<Turn>, m: nat, j: nat)
    requires m < j < |turns| && DistinctRequests(turns) && turns[m].thread == turns[j].thread
    requires RanAt(turns, m).Some?
    requires !(turns[j].kind.Chat? && !turns[j].injected && turns[j].decision.understood)
    ensures RanAt(turns, j) != RanAt(turns, m)
  {
    var t := turns[j].thread;
    RunOrigin(turns, m);
    var i :| 0 <= i <= m && turns[i].thread == t && RanAt(turns, m) == Some(RunId(t, turns[i].request));
    if RanAt(turns, j) == RanAt(turns, m) { RunNamesRequest(t, turns[i].request, turns[j].request); }
  }

  // ---- Messages that change nothing ----

  /** An injected message, and one that needs clarifying while its thread waits, get a reply and leave everything as it
      was. */
  lemma UnheardChangesNothing(turns: seq<Turn>, k: nat)
    requires k < |turns| && turns[k].kind.Chat?
    requires turns[k].injected ||
             (!turns[k].decision.understood && OpenQuestion(turns, k, turns[k].thread).Some?)
    ensures Output(turns, k) == [Side(Reply)] && After(turns[..k + 1]) == After(turns[..k])
  {
    PausedIffOpen(turns, k, turns[k].thread);
    AfterStep(turns, k);
  }

  // ---- Yes and no ----

  lemma YesBegins(text: string)
    requires Affirmative(text)
    ensures var value := Fold(Strip(text));
            |value| > 0 && value[0] in "ysoacg" && (value[0] == 'c' ==> |value| > 1 && value[1] == 'o')
  {
    var value := Fold(Strip(text));
    if "yes " <= value { assert value[0] == "yes "[0]; }
    if "approve " <= value { assert value[0] == "approve "[0]; }
    if "confirm " <= value { assert value[0] == "confirm "[0] && value[1] == "confirm "[1]; }
  }

  lemma NoBegins(text: string)
    requires Negative(text)
    ensures var value := Fold(Strip(text));
            |value| > 0 && value[0] in "ncd" && (value[0] == 'c' ==> |value| > 1 && value[1] == 'a')
  {
    var value := Fold(Strip(text));
    if "no " <= value { assert value[0] == "no "[0]; }
    if "don't " <= value { assert value[0] == "don't "[0]; }
    if "do not " <= value { assert value[0] == "do not "[0]; }
    if "cancel " <= value { assert value[0] == "cancel "[0] && value[1] == "cancel "[1]; }
  }

  /** No answer counts as both, so the order of the two tests does not matter. */
  lemma YesIsNotNo(text: string)
    ensures !(Affirmative(text) && Negative(text))
  {
    if Affirmative(text) && Negative(text) {
      YesBegins(text);
      NoBegins(text);
    }
  }
}
