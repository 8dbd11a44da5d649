/** The entities of a plan, and what every scheduling pass does to the list of placed sessions. */
module Sessions {
  import opened Prelude
  import opened OpenDay

  datatype Reason = RemainingTask | AssessmentPrep | MaterialNotCompleted | MasteryGap

  /** Something worth scheduling. Days are ordinals, `course` is the index of its course. */
  datatype Candidate = Candidate(
    id: string, course: nat, courseName: string, title: string, description: string,
    deadline: Option<int>, reason: Reason, mastery: Option<real>, length: Option<int>,
    effort: int, priority: real)

  /** A session as the model proposes it: any id, any text for the day, any numbers. */
  datatype Proposal = Proposal(
    candidate: string, dayText: string, day: Option<int>, number: int, total: int, focus: string)

  /** A session placed on a day. */
  datatype Session = Session(candidate: string, day: int, number: int, total: int, focus: string)

  /** Where and how densely sessions may be placed. */
  datatype Window = Window(start: int, end: Option<int>, capacity: nat)

  /** The per-day load of the placed sessions. */
  function Tally(placed: seq<Session>): Load {
    if |placed| == 0 then map[] else Bump(Tally(placed[..|placed| - 1]), placed[|placed| - 1].day)
  }

  /** How many placed sessions belong to one candidate. */
  function Held(placed: seq<Session>, id: string): nat {
    if |placed| == 0 then 0
    else Held(placed[..|placed| - 1], id) + if placed[|placed| - 1].candidate == id then 1 else 0
  }

  function ById(candidates: seq<Candidate>): map<string, Candidate> {
    if |candidates| == 0 then map[]
    else var c := candidates[|candidates| - 1]; ById(candidates[..|candidates| - 1])[c.id := c]
  }

  predicate DistinctIds(candidates: seq<Candidate>) {
    forall i, j | 0 <= i < j < |candidates| :: candidates[i].id != candidates[j].id
  }

  /** The day the search gives a session once `placed` is on the calendar. */
  function Place(placed: seq<Session>, w: Window, from: int, deadline: Option<int>): int {
    NextOpen(Tally(placed), from, deadline, w.end, w.capacity)
  }

  function Total(c: Candidate): nat { Max(1, c.effort) }

  lemma Snoc(placed: seq<Session>, x: Session)
    ensures Tally(placed + [x]) == Bump(Tally(placed), x.day)
    ensures forall id :: Held(placed + [x], id) == Held(placed, id) + if x.candidate == id then 1 else 0
  {
    assert (placed + [x])[..|placed|] == placed;
  }

  lemma {:induction false} ByIdHolds(candidates: seq<Candidate>)
    ensures forall id :: id in ById(candidates) <==> exists k :: 0 <= k < |candidates| && candidates[k].id == id
    ensures forall id | id in ById(candidates) :: ById(candidates)[id] in candidates && ById(candidates)[id].id == id
    ensures DistinctIds(candidates) ==>
              forall k | 0 <= k < |candidates| :: ById(candidates)[candidates[k].id] == candidates[k]
  {
    if |candidates| == 0 {
    } else {
      var n := |candidates| - 1;
      ByIdHolds(candidates[..n]);
      assert candidates == candidates[..n] + [candidates[n]];
      forall id | exists k :: 0 <= k < |candidates| && candidates[k].id == id ensures id in ById(candidates) {
        var k :| 0 <= k < |candidates| && candidates[k].id == id;
        if k < n { assert candidates[..n][k].id == id; }
      }
      forall id | id in ById(candidates)
        ensures exists k :: 0 <= k < |candidates| && candidates[k].id == id
      {
        if id != candidates[n].id {
          assert id in ById(candidates[..n]);
          var k :| 0 <= k < n && candidates[..n][k].id == id;
          assert candidates[k].id == id;
        } else {
          assert candidates[n].id == id;
        }
      }
    }
  }

  // ---- Growth: what every pass does ----

  /** A day a pass may add to: one with room, or one the search returned. */
  ghost predicate Placeable(placed: seq<Session>, day: int, w: Window) {
    HasRoom(Tally(placed), w.capacity, day) ||
    exists from, deadline :: day == Place(placed, w, from, deadline)
  }

  /** `out` keeps the sessions of `base` where they are and adds only placeable ones after them. */
  ghost predicate Grows(base: seq<Session>, out: seq<Session>, w: Window) {
    base <= out && forall k | |base| <= k < |out| :: Placeable(out[..k], out[k].day, w)
  }

  lemma GrowsBy(base: seq<Session>, out: seq<Session>, x: Session, w: Window)
    requires Grows(base, out, w) && Placeable(out, x.day, w)
    ensures Grows(base, out + [x], w)
  {
    var more := out + [x];
    forall k | |base| <= k < |more| ensures Placeable(more[..k], more[k].day, w) {
      if k < |out| { assert more[..k] == out[..k]; } else { assert more[..k] == out; }
    }
  }

  lemma GrowsTransitive(a: seq<Session>, b: seq<Session>, c: seq<Session>, w: Window)
    requires Grows(a, b, w) && Grows(b, c, w)
    ensures Grows(a, c, w)
  {
    forall k | |a| <= k < |c| ensures Placeable(c[..k], c[k].day, w) {
      if k < |b| { assert c[..k] == b[..k]; }
    }
  }

  ghost predicate WithinCapacity(placed: seq<Session>, capacity: nat) {
    forall d :: On(Tally(placed), d) <= capacity
  }

  lemma {:induction false} TallyTotal(placed: seq<Session>, from: int, until: int)
    ensures LoadBetween(Tally(placed), from, until) <= |placed|
    ensures (forall k | 0 <= k < |placed| :: from <= placed[k].day < until) ==>
              LoadBetween(Tally(placed), from, until) == |placed|
  {
    if |placed| == 0 {
      EmptyLoad(from, until);
    } else {
      var n := |placed| - 1;
      TallyTotal(placed[..n], from, until);
      LoadBetweenBump(Tally(placed[..n]), from, until, placed[n].day);
    }
  }

  lemma {:induction false} EmptyLoad(from: int, until: int)
    ensures LoadBetween(map[], from, until) == 0
    decreases until - from
  {
    if from < until { EmptyLoad(from, until - 1); }
  }

  /** However they are asked for, this many sessions never overfill a day: 367 * capacity, or 732 * capacity without a
      finish date. */
  function SafeSessions(w: Window): nat { w.capacity * FullRun(w.end) }

  /** The search can only return a full day once `SafeSessions` are placed. */
  lemma PlacedDayHasRoom(placed: seq<Session>, w: Window, day: int)
    requires Placeable(placed, day, w) && |placed| < SafeSessions(w)
    ensures HasRoom(Tally(placed), w.capacity, day)
  {
    if !HasRoom(Tally(placed), w.capacity, day) {
      var from, deadline :| day == Place(placed, w, from, deadline);
      NextOpenSkipsFullDays(Tally(placed), from, deadline, w.end, w.capacity);
      FullDaysAddUp(Tally(placed), w.capacity, from, FullRun(w.end));
      TallyTotal(placed, from, from + FullRun(w.end));
      assert false;
    }
  }

  /** However the passes got there, a plan of at most `SafeSessions` sessions respects the daily limit. */
  lemma {:induction false} GrowthStaysWithinCapacity(placed: seq<Session>, w: Window)
    requires Grows([], placed, w) && |placed| <= SafeSessions(w)
    ensures WithinCapacity(placed, w.capacity)
  {
    if |placed| == 0 {
    } else {
      var n := |placed| - 1;
      assert Grows([], placed[..n], w) by {
        forall k | 0 <= k < n ensures Placeable(placed[..n][..k], placed[..n][k].day, w) {
          assert placed[..n][..k] == placed[..k];
        }
      }
      GrowthStaysWithinCapacity(placed[..n], w);
      PlacedDayHasRoom(placed[..n], w, placed[n].day);
      forall d ensures On(Tally(placed), d) <= w.capacity {
        assert On(Tally(placed[..n]), d) <= w.capacity;
      }
    }
  }
}
