/** The approval workflow: chat turns against paused runs, with the agents' answers as arbitrary inputs. */
module Workflow {
  import opened Prelude
  import opened Text
  import opened Assembly
  import opened Calendar

  datatype Kind = Chat | ProgressCheck | DocumentIngest | DocumentRemove

  datatype Route = ToRag | ToPlanning | ToQuiz

  /** The communication agent's verdict on a message. */
  datatype Decision = Decision(understood: bool, answersPending: bool)

  datatype PlanResult = NeedsInput | Draft(plan: seq<Item>) | Explained

  /** What a paused run waits for. Both kinds resume at the planning node. */
  datatype Pending = PlanInput | CalendarApproval(plan: seq<Item>)

  /** Events without an effect on the calendar. */
  datatype SideEvent = Reply | Citation | QuizCreate | Notification | DocumentStatus

  datatype Emission = Side(event: SideEvent) | TaskUpsert(event': Upsert) | ApprovalRequired(pending: Pending)

  /** One request, with everything the agents and the database contribute to its handling. */
  datatype Turn = Turn(
    thread: string, request: string, kind: Kind, text: string, injected: bool, decision: Decision,
    route: Route, planned: PlanResult, answer: seq<SideEvent>, courses: seq<CourseView>)

  // ---- Reading the answer ----

  predicate StartsWith(prefix: string, s: string) { prefix <= s }

  predicate Affirmative(text: string) {
    var value := Fold(Strip(text));
    value in {"yes", "y", "yeah", "yep", "sure", "ok", "okay", "approve", "approved", "confirm", "confirmed",
              "go ahead", "add them", "add it", "add to calendar"} ||
    StartsWith("yes ", value) || StartsWith("approve ", value) || StartsWith("confirm ", value)
  }

  predicate Negative(text: string) {
    var value := Fold(Strip(text));
    value in {"no", "n", "nope", "not now", "cancel", "decline", "declined"} ||
    StartsWith("no ", value) || StartsWith("don't ", value) || StartsWith("do not ", value) ||
    StartsWith("cancel ", value)
  }

  // ---- The graph ----

  /** What running the graph to its next stop produces: its events, and the payload it pauses with, if it pauses. */
  datatype GraphResult = GraphResult(events: seq<Emission>, stopped: Option<Pending>)

  function Sides(events: seq<SideEvent>): seq<Emission> {
    seq(|events|, i requires 0 <= i < |events| => Side(events[i]))
  }

  function Upserts(events: seq<Upsert>): seq<Emission> {
    seq(|events|, i requires 0 <= i < |events| => TaskUpsert(events[i]))
  }

  function PlanOutcome(result: PlanResult): GraphResult {
    match result
    case NeedsInput => GraphResult([], Some(PlanInput))
    case Draft(plan) => GraphResult([], Some(CalendarApproval(plan)))
    case Explained => GraphResult([Side(Reply)], None)
  }

  /** The planning node, resumed with the student's exact words. */
  function ResumePlanning(pending: Pending, turn: Turn): GraphResult {
    match pending
    case CalendarApproval(plan) =>
      if Affirmative(turn.text) then GraphResult(Upserts(Events(plan, turn.courses)) + [Side(Reply)], None)
      else if Negative(turn.text) then GraphResult([Side(Reply)], None)
      else PlanOutcome(turn.planned)
    case PlanInput => PlanOutcome(turn.planned)
  }

  /** A new run: clarify, route, and let one specialist answer. Only planning can pause. */
  function NewRun(turn: Turn, checked: bool): GraphResult {
    if !checked && turn.kind.Chat? && !turn.decision.understood then GraphResult([Side(Reply)], None)
    else if turn.kind.Chat? && turn.route.ToPlanning? then PlanOutcome(turn.planned)
    else GraphResult(Sides(turn.answer), None)
  }

  // ---- The supervisor ----

  /** A conversation waiting for an answer: the run that waits and what it asked. */
  datatype Paused = Paused(run: string, pending: Pending)

  datatype State = State(paused: map<string, Paused>, checkpoints: map<string, Pending>)

  function RunId(thread: string, request: string): string { thread + ":" + request }

  /** How a turn that reaches the graph runs it: the run, whether it resumes, and what the table looks like then. */
  function Invoke(s: State, turn: Turn, run: string, result: GraphResult): (State, seq<Emission>) {
    match result.stopped
    case Some(p) =>
      (State(s.paused[turn.thread := Paused(run, p)], s.checkpoints[run := p]),
       result.events + [ApprovalRequired(p), Side(Reply)])
    case None =>
      var own := turn.thread in s.paused && s.paused[turn.thread].run == run;
      var paused := if own then s.paused - {turn.thread} else s.paused;
      (State(paused, s.checkpoints - {run}), result.events)
  }

  function Handled(s: State, turn: Turn): (State, seq<Emission>) {
    var t := turn.thread;
    if turn.kind.Chat? && turn.injected then (s, [Side(Reply)])
    else if turn.kind.Chat? && t in s.paused then
      if !turn.decision.understood then (s, [Side(Reply)])
      else if turn.decision.answersPending then
        var run := s.paused[t].run;
        var result := if run in s.checkpoints then ResumePlanning(s.checkpoints[run], turn) else GraphResult([], None);
        Invoke(s, turn, run, result)
      else Invoke(s.(paused := s.paused - {t}), turn, RunId(t, turn.request), NewRun(turn, true))
    else Invoke(s, turn, RunId(t, turn.request), NewRun(turn, false))
  }

  class Supervisor {
    var paused: map<string, Paused>
    var checkpoints: map<string, Pending>

    constructor ()
      ensures paused == map[] && checkpoints == map[]
    {
      paused, checkpoints := map[], map[];
    }

    function Now(): State reads this { State(paused, checkpoints) }

    /** The graph runs under a run id until it stops; its checkpoint keeps the payload it paused with. */
    method InvokeGraph(run: string, result: GraphResult) returns (events: seq<Emission>, stopped: Option<Pending>)
      modifies this`checkpoints
      ensures events == result.events && stopped == result.stopped
      ensures checkpoints == if stopped.Some? then old(checkpoints)[run := stopped.value] else old(checkpoints) - {run}
    {
      events, stopped := result.events, result.stopped;
      if stopped.Some? {
        checkpoints := checkpoints[run := stopped.value];
      } else {
        checkpoints := checkpoints - {run};
      }
    }

    method Handle(turn: Turn) returns (out: seq<Emission>)
      modifies this
      ensures (Now(), out) == Handled(old(Now()), turn)
    {
      if turn.kind.Chat? && turn.injected { return [Side(Reply)]; }
      var thread := turn.thread;
      var run := RunId(thread, turn.request);
      var result: GraphResult;
      if turn.kind.Chat? && thread in paused {
        if !turn.decision.understood { return [Side(Reply)]; }
        if turn.decision.answersPending {
          run := paused[thread].run;
          result := if run in checkpoints then ResumePlanning(checkpoints[run], turn) else GraphResult([], None);
        } else {
          paused := paused - {thread};
          result := NewRun(turn, true);
        }
      } else {
        result := NewRun(turn, false);
      }
      var events, stopped := InvokeGraph(run, result);
      out := events;
      if stopped.Some? {
        paused := paused[thread := Paused(run, stopped.value)];
        out := out + [ApprovalRequired(stopped.value), Side(Reply)];
      } else if thread in paused && paused[thread].run == run {
        paused := paused - {thread};
      }
    }
  }
}
