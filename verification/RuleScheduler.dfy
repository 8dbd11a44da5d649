/** The deterministic scheduler: spread each candidate over its own window, one open day per session. */
module RuleScheduler {
  import opened Prelude
  import opened Text
  import opened OpenDay
  import opened Sessions

  /** Ordinal of the latest representable date, the sort key of work without any deadline. */
  const MAX_DAY := 3652059

  function DueKey(c: Candidate, end: Option<int>): int {
    if c.deadline.Some? then c.deadline.value else if end.Some? then end.value else MAX_DAY
  }

  predicate RuleBefore(end: Option<int>, a: Candidate, b: Candidate) {
    a.priority > b.priority ||
    (a.priority == b.priority &&
     (DueKey(a, end) < DueKey(b, end) ||
      (DueKey(a, end) == DueKey(b, end) && StrLe(Fold(a.title), Fold(b.title)))))
  }

  function RuleOrder(candidates: seq<Candidate>, w: Window): seq<Candidate> {
    SortBy((a, b) => RuleBefore(w.end, a, b), candidates)
  }

  /** Length of the stretch a candidate's sessions are spread over. */
  function Span(c: Candidate, w: Window): nat {
    var last := if c.deadline.Some? && c.deadline.value >= w.start then c.deadline else w.end;
    if last.Some? && last.value >= w.start then last.value - w.start else 0
  }

  function Target(c: Candidate, w: Window, index: nat): int {
    if Total(c) > 1 then w.start + RoundQuotient(index * Span(c, w), Total(c)) else w.start
  }

  /** `placed` followed by the first `k` sessions of candidate `c`. */
  function Spread(placed: seq<Session>, c: Candidate, w: Window, k: nat): seq<Session> {
    if k == 0 then placed
    else
      var out := Spread(placed, c, w, k - 1);
      out + [Session(c.id, Place(out, w, Target(c, w, k - 1), c.deadline), k, Total(c), "")]
  }

  function SpreadAll(ordered: seq<Candidate>, w: Window): seq<Session> {
    if |ordered| == 0 then []
    else
      var c := ordered[|ordered| - 1];
      Spread(SpreadAll(ordered[..|ordered| - 1], w), c, w, Total(c))
  }

  function Rule(candidates: seq<Candidate>, w: Window): seq<Session> {
    SpreadAll(RuleOrder(candidates, w), w)
  }

  method RuleSchedule(candidates: seq<Candidate>, w: Window) returns (sessions: seq<Session>)
    ensures sessions == Rule(candidates, w)
  {
    var load: Load := map[];
    sessions := [];
    var ordered := RuleOrder(candidates, w);
    for i := 0 to |ordered|
      invariant sessions == SpreadAll(ordered[..i], w) && load == Tally(sessions)
    {
      var candidate := ordered[i];
      var total := Total(candidate);
      ghost var before := sessions;
      for index := 0 to total
        invariant sessions == Spread(before, candidate, w, index) && load == Tally(sessions)
      {
        var target := Target(candidate, w, index);
        var day := NextOpenDay(load, target, candidate.deadline, w.end, w.capacity);
        load := Bump(load, day);
        var session := Session(candidate.id, day, index + 1, total, "");
        Snoc(sessions, session);
        sessions := sessions + [session];
      }
      SpreadAllStep(ordered, w, i);
    }
    assert ordered[..|ordered|] == ordered;
  }

  lemma SpreadAllStep(ordered: seq<Candidate>, w: Window, i: nat)
    requires i < |ordered|
    ensures SpreadAll(ordered[..i + 1], w) ==
            Spread(SpreadAll(ordered[..i], w), ordered[i], w, Total(ordered[i]))
  {
    assert ordered[..i + 1][..i] == ordered[..i];
  }

  // ---- Growth and counts ----

  lemma PlaceIsPlaceable(placed: seq<Session>, w: Window, from: int, deadline: Option<int>)
    ensures Placeable(placed, Place(placed, w, from, deadline), w)
  {}

  lemma {:induction false} SpreadGrows(placed: seq<Session>, c: Candidate, w: Window, k: nat)
    ensures Grows(placed, Spread(placed, c, w, k), w)
    ensures |Spread(placed, c, w, k)| == |placed| + k
  {
    if k == 0 {
    } else {
      var out := Spread(placed, c, w, k - 1);
      SpreadGrows(placed, c, w, k - 1);
      var x := Session(c.id, Place(out, w, Target(c, w, k - 1), c.deadline), k, Total(c), "");
      PlaceIsPlaceable(out, w, Target(c, w, k - 1), c.deadline);
      GrowsBy(placed, out, x, w);
    }
  }

  lemma {:induction false} SpreadHeld(placed: seq<Session>, c: Candidate, w: Window, k: nat, id: string)
    ensures Held(Spread(placed, c, w, k), id) == Held(placed, id) + if id == c.id then k else 0
  {
    if k == 0 {
    } else {
      var out := Spread(placed, c, w, k - 1);
      SpreadHeld(placed, c, w, k - 1, id);
      Snoc(out, Session(c.id, Place(out, w, Target(c, w, k - 1), c.deadline), k, Total(c), ""));
    }
  }

  /** Sessions owed to one id by a list of candidates. */
  function Owed(candidates: seq<Candidate>, id: string): nat {
    Sum((c: Candidate) => if c.id == id then Total(c) else 0, candidates)
  }

  lemma OwedAppend(a: seq<Candidate>, c: Candidate, id: string)
    ensures Owed(a + [c], id) == Owed(a, id) + if c.id == id then Total(c) else 0
  {
    SumSnoc((x: Candidate) => if x.id == id then Total(x) else 0, a, c);
  }

  lemma {:induction false} SpreadAllGrows(ordered: seq<Candidate>, w: Window)
    ensures Grows([], SpreadAll(ordered, w), w)
  {
    if |ordered| == 0 {
    } else {
      var n := |ordered| - 1;
      SpreadAllGrows(ordered[..n], w);
      var before := SpreadAll(ordered[..n], w);
      SpreadGrows(before, ordered[n], w, Total(ordered[n]));
      GrowsTransitive([], before, SpreadAll(ordered, w), w);
    }
  }

  lemma {:induction false} SpreadAllHeld(ordered: seq<Candidate>, w: Window, id: string)
    ensures Held(SpreadAll(ordered, w), id) == Owed(ordered, id)
  {
    if |ordered| == 0 {
    } else {
      var n := |ordered| - 1;
      SpreadAllHeld(ordered[..n], w, id);
      SpreadHeld(SpreadAll(ordered[..n], w), ordered[n], w, Total(ordered[n]), id);
      OwedAppend(ordered[..n], ordered[n], id);
      assert ordered == ordered[..n] + [ordered[n]];
    }
  }

  lemma OwedSort(le: (Candidate, Candidate) -> bool, s: seq<Candidate>, id: string)
    ensures Owed(SortBy(le, s), id) == Owed(s, id)
  {
    SumSort((c: Candidate) => if c.id == id then Total(c) else 0, le, s);
  }

  lemma OwedDistinct(candidates: seq<Candidate>, id: string)
    requires DistinctIds(candidates)
    ensures forall k | 0 <= k < |candidates| && candidates[k].id == id :: Owed(candidates, id) == Total(candidates[k])
    ensures (forall k | 0 <= k < |candidates| :: candidates[k].id != id) ==> Owed(candidates, id) == 0
  {
    var f := (c: Candidate) => if c.id == id then Total(c) else 0;
    if k :| 0 <= k < |candidates| && candidates[k].id == id {
      forall i | 0 <= i < |candidates| && i != k ensures f(candidates[i]) == 0 {
        assert candidates[i].id != candidates[k].id;
      }
      SumSingle(f, candidates, k);
    } else {
      SumZero(f, candidates);
    }
  }

  /** Every candidate receives exactly the sessions it is owed, nobody else receives any, and growth is lawful. */
  lemma RuleAccountsForAll(candidates: seq<Candidate>, w: Window)
    ensures Grows([], Rule(candidates, w), w)
    ensures forall id :: Held(Rule(candidates, w), id) == Owed(candidates, id)
  {
    SpreadAllGrows(RuleOrder(candidates, w), w);
    forall id ensures Held(Rule(candidates, w), id) == Owed(candidates, id) {
      SpreadAllHeld(RuleOrder(candidates, w), w, id);
      OwedSort((a, b) => RuleBefore(w.end, a, b), candidates, id);
    }
  }

  // ---- Targets ----

  /** The deadline is absent or lies inside the window. */
  predicate DeadlineInside(c: Candidate, w: Window) {
    c.deadline.Some? ==> w.start <= c.deadline.value && (w.end.Some? ==> c.deadline.value <= w.end.value)
  }

  /** Targets never move back, and stay between the start of the window and the candidate's own bound. */
  lemma TargetsAdvanceInsideWindow(c: Candidate, w: Window, i: nat, j: nat)
    requires i <= j < Total(c)
    ensures w.start <= Target(c, w, i) <= Target(c, w, j) <= w.start + Span(c, w)
    ensures DeadlineInside(c, w) && c.deadline.Some? ==> Target(c, w, j) <= c.deadline.value
    ensures DeadlineInside(c, w) && w.end.Some? && w.start <= w.end.value ==> Target(c, w, j) <= w.end.value
  {
    var span, total := Span(c, w), Total(c);
    if total > 1 {
      assert i * span <= j * span by { ProductMonotone(i, j, span); }
      assert j * span <= span * total by { ProductMonotone(j, total, span); }
      RoundQuotientMonotone(i * span, j * span, total);
      RoundQuotientBound(j * span, total, span);
    }
  }

  /** The stretch a candidate is spread over runs from the start of the window to its deadline, if that is to come,
      else to the finish date, if that is. */
  lemma SpanEnds(c: Candidate, w: Window)
    ensures c.deadline.Some? && c.deadline.value >= w.start ==> w.start + Span(c, w) == c.deadline.value
    ensures (c.deadline.None? || c.deadline.value < w.start) && w.end.Some? && w.end.value >= w.start ==>
              w.start + Span(c, w) == w.end.value
    ensures (c.deadline.None? || c.deadline.value < w.start) && (w.end.None? || w.end.value < w.start) ==>
              Span(c, w) == 0
  {}

  /** Targets are spread evenly: session `i` of `n` aims within half a day of i / n of the stretch. */
  lemma TargetsAreEven(c: Candidate, w: Window, i: nat)
    requires i < Total(c)
    ensures 2 * (Total(c) * (Target(c, w, i) - w.start)) <= 2 * (i * Span(c, w)) + Total(c)
    ensures 2 * (i * Span(c, w)) <= 2 * (Total(c) * (Target(c, w, i) - w.start)) + Total(c)
  {
    if Total(c) > 1 {
      ProductMonotone(0, i, Span(c, w));
      EvenQuotient(i * Span(c, w), Total(c), Target(c, w, i) - w.start);
    }
  }

  lemma EvenQuotient(num: nat, den: nat, q: int)
    requires den > 0 && q == RoundQuotient(num, den)
    ensures 2 * (den * q) <= 2 * num + den && 2 * num <= 2 * (den * q) + den
  {
    RoundQuotientNear(num, den);
  }

  // ---- Where a session lands ----

  /** Session `k` belongs to a candidate and sits on the first day from its target that was not full. */
  ghost predicate LandsFirstOpen(out: seq<Session>, k: nat, candidates: seq<Candidate>, w: Window)
    requires k < |out|
  {
    exists c | c in candidates :: LandsFor(out, k, c, w)
  }

  ghost predicate LandsFor(out: seq<Session>, k: nat, c: Candidate, w: Window)
    requires k < |out|
  {
    out[k].candidate == c.id && 1 <= out[k].number <= Total(c) && out[k].total == Total(c) &&
    Target(c, w, out[k].number - 1) <= out[k].day &&
    out[k].day == Place(out[..k], w, Target(c, w, out[k].number - 1), c.deadline) &&
    forall e | Target(c, w, out[k].number - 1) <= e < out[k].day :: !HasRoom(Tally(out[..k]), w.capacity, e)
  }

  ghost predicate AllLand(out: seq<Session>, candidates: seq<Candidate>, w: Window) {
    forall k | 0 <= k < |out| :: LandsFirstOpen(out, k, candidates, w)
  }

  lemma LandSnoc(out: seq<Session>, x: Session, cs: seq<Candidate>, w: Window)
    requires AllLand(out, cs, w) && LandsFirstOpen(out + [x], |out|, cs, w)
    ensures AllLand(out + [x], cs, w)
  {
    var more := out + [x];
    forall j | 0 <= j < |out| ensures LandsFirstOpen(more, j, cs, w) {
      assert LandsFirstOpen(out, j, cs, w);
      var owner :| owner in cs && LandsFor(out, j, owner, w);
      assert more[..j] == out[..j];
      assert LandsFor(more, j, owner, w);
    }
  }

  lemma {:induction false} SpreadLands(placed: seq<Session>, c: Candidate, w: Window, k: nat, cs: seq<Candidate>)
    requires c in cs && k <= Total(c)
    requires AllLand(placed, cs, w)
    ensures AllLand(Spread(placed, c, w, k), cs, w)
  {
    if k == 0 {
    } else {
      SpreadLands(placed, c, w, k - 1, cs);
      var out := Spread(placed, c, w, k - 1);
      var x := Session(c.id, Place(out, w, Target(c, w, k - 1), c.deadline), k, Total(c), "");
      NextOpenSkipsFullDays(Tally(out), Target(c, w, k - 1), c.deadline, w.end, w.capacity);
      assert (out + [x])[..|out|] == out;
      assert LandsFor(out + [x], |out|, c, w);
      LandSnoc(out, x, cs, w);
    }
  }

  lemma {:induction false} SpreadAllLands(ordered: seq<Candidate>, w: Window, n: nat)
    requires n <= |ordered|
    ensures AllLand(SpreadAll(ordered[..n], w), ordered, w)
  {
    if n == 0 {
    } else {
      SpreadAllLands(ordered, w, n - 1);
      assert ordered[..n][..n - 1] == ordered[..n - 1];
      SpreadLands(SpreadAll(ordered[..n - 1], w), ordered[n - 1], w, Total(ordered[n - 1]), ordered);
    }
  }

  lemma RuleLands(candidates: seq<Candidate>, w: Window)
    ensures AllLand(Rule(candidates, w), candidates, w)
  {
    var ordered := RuleOrder(candidates, w);
    SpreadAllLands(ordered, w, |ordered|);
    assert ordered[..|ordered|] == ordered;
    SortPermutes((a, b) => RuleBefore(w.end, a, b), candidates);
    var out := Rule(candidates, w);
    forall k | 0 <= k < |out| ensures LandsFirstOpen(out, k, candidates, w) {
      assert LandsFirstOpen(out, k, ordered, w);
      var c :| c in ordered && LandsFor(out, k, c, w);
      assert c in multiset(ordered);
      assert c in multiset(candidates);
      assert LandsFor(out, k, c, w);
    }
  }

  /** The last day a candidate should finish by. */
  function Bound(c: Candidate, w: Window): Option<int> {
    if c.deadline.Some? && w.end.Some? then Some(Min(c.deadline.value, w.end.value))
    else if c.deadline.Some? then c.deadline else w.end
  }

  lemma InsideTargetInBound(c: Candidate, w: Window, i: nat)
    requires i < Total(c) && DeadlineInside(c, w) && Bound(c, w).Some? && (w.end.Some? ==> w.start <= w.end.value)
    ensures Target(c, w, i) <= Bound(c, w).value
  {
    TargetsAdvanceInsideWindow(c, w, i, i);
  }

  /** A session passes its bound only when every day from its target to that bound was full; the target never does. */
  lemma RuleSpillsOnlyWhenFull(candidates: seq<Candidate>, w: Window, k: nat)
    requires k < |Rule(candidates, w)|
    ensures var out := Rule(candidates, w);
            exists c | c in candidates ::
              LandsFor(out, k, c, w) &&
              (Bound(c, w).Some? && out[k].day > Bound(c, w).value ==>
                 forall e | Target(c, w, out[k].number - 1) <= e <= Bound(c, w).value ::
                   !HasRoom(Tally(out[..k]), w.capacity, e)) &&
              (DeadlineInside(c, w) && Bound(c, w).Some? && (w.end.Some? ==> w.start <= w.end.value) ==>
                 Target(c, w, out[k].number - 1) <= Bound(c, w).value)
  {
    RuleLands(candidates, w);
    var out := Rule(candidates, w);
    assert LandsFirstOpen(out, k, candidates, w);
    var c :| c in candidates && LandsFor(out, k, c, w);
    if DeadlineInside(c, w) && Bound(c, w).Some? && (w.end.Some? ==> w.start <= w.end.value) {
      InsideTargetInBound(c, w, out[k].number - 1);
    }
  }

  // ---- How much work the daily limit survives ----

  lemma PlaceBounded(placed: seq<Session>, w: Window, from: int, deadline: Option<int>)
    requires w.end.Some? && from <= w.end.value
    ensures from <= Place(placed, w, from, deadline) <= w.end.value + 366
  {
    NextOpenHasRoomIff(Tally(placed), from, deadline, w.end, w.capacity);
  }

  /** With every deadline inside the window, no session lands more than 366 days past the finish date. */
  lemma RuleDaysBounded(candidates: seq<Candidate>, w: Window)
    requires w.end.Some? && w.start <= w.end.value
    requires forall c | c in candidates :: c.deadline.Some? ==> c.deadline.value <= w.end.value
    ensures forall k | 0 <= k < |Rule(candidates, w)| :: w.start <= Rule(candidates, w)[k].day < w.end.value + 367
  {
    RuleLands(candidates, w);
    var out := Rule(candidates, w);
    forall k | 0 <= k < |out| ensures w.start <= out[k].day < w.end.value + 367 {
      assert LandsFirstOpen(out, k, candidates, w);
      var c :| c in candidates && LandsFor(out, k, c, w);
      TargetsAdvanceInsideWindow(c, w, out[k].number - 1, out[k].number - 1);
      PlaceBounded(out[..k], w, Target(c, w, out[k].number - 1), c.deadline);
    }
  }

  /** All the sessions a list of candidates asks for. */
  function Work(candidates: seq<Candidate>): nat { Sum((c: Candidate) => Total(c), candidates) }

  lemma {:induction false} SpreadAllSize(ordered: seq<Candidate>, w: Window)
    ensures |SpreadAll(ordered, w)| == Work(ordered)
  {
    if |ordered| == 0 {
    } else {
      var n := |ordered| - 1;
      SpreadAllSize(ordered[..n], w);
      SpreadGrows(SpreadAll(ordered[..n], w), ordered[n], w, Total(ordered[n]));
      SumSnoc((c: Candidate) => Total(c), ordered[..n], ordered[n]);
      assert ordered == ordered[..n] + [ordered[n]];
    }
  }

  lemma RuleSize(candidates: seq<Candidate>, w: Window)
    ensures |Rule(candidates, w)| == Work(candidates)
  {
    SpreadAllSize(RuleOrder(candidates, w), w);
    SumSort((c: Candidate) => Total(c), (a, b) => RuleBefore(w.end, a, b), candidates);
  }

  lemma AddOpenDay(front: seq<Session>, x: Session, w: Window)
    requires WithinCapacity(front, w.capacity) && HasRoom(Tally(front), w.capacity, x.day)
    ensures WithinCapacity(front + [x], w.capacity)
  {
    Snoc(front, x);
    forall d ensures On(Tally(front + [x]), d) <= w.capacity {
      assert On(Tally(front), d) <= w.capacity;
    }
  }

  /** The rule schedule respects the daily limit whenever the work asked for is at most `SafeSessions`. */
  lemma RuleFits(candidates: seq<Candidate>, w: Window)
    requires Work(candidates) <= SafeSessions(w)
    ensures WithinCapacity(Rule(candidates, w), w.capacity)
  {
    RuleSize(candidates, w);
    RuleAccountsForAll(candidates, w);
    GrowthStaysWithinCapacity(Rule(candidates, w), w);
  }
}
