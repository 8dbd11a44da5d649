/** Where the rule scheduler's sessions aim, and what that decides: exactly when its schedule finishes in time, and
    exactly when it keeps the daily limit. */
module Aims {
  import opened Prelude
  import opened OpenDay
  import opened Sessions
  import opened RuleScheduler
  import opened Validator
  import opened LegalDesigns

  /** Where the search for a session starts, and the deadline it is given. */
  datatype Aim = Aim(day: int, deadline: Option<int>)

  /** The aims of the first `k` sessions of a candidate. */
  function AimsOf(c: Candidate, w: Window, k: nat): seq<Aim> {
    if k == 0 then [] else AimsOf(c, w, k - 1) + [Aim(Target(c, w, k - 1), c.deadline)]
  }

  function AimsAll(ordered: seq<Candidate>, w: Window): seq<Aim> {
    if |ordered| == 0 then []
    else
      var n := |ordered| - 1;
      AimsAll(ordered[..n], w) + AimsOf(ordered[n], w, Total(ordered[n]))
  }

  /** Aims on day `d` or later. */
  function From(aims: seq<Aim>, d: int): nat { Count((a: Aim) => a.day >= d, aims) }

  /** Every session sits where the search from its aim put it. */
  ghost predicate Aimed(out: seq<Session>, aims: seq<Aim>, w: Window) {
    |out| == |aims| &&
    forall k | 0 <= k < |out| :: out[k].day == Place(out[..k], w, aims[k].day, aims[k].deadline)
  }

  lemma AimedSnoc(out: seq<Session>, aims: seq<Aim>, x: Session, a: Aim, w: Window)
    requires Aimed(out, aims, w) && x.day == Place(out, w, a.day, a.deadline)
    ensures Aimed(out + [x], aims + [a], w)
  {
    var more := out + [x];
    var sights := aims + [a];
    forall k | 0 <= k < |more| ensures more[k].day == Place(more[..k], w, sights[k].day, sights[k].deadline) {
      if k < |out| { assert more[..k] == out[..k]; } else { assert more[..k] == out; }
    }
  }

  lemma AimedPrefix(out: seq<Session>, aims: seq<Aim>, w: Window, n: nat)
    requires Aimed(out, aims, w) && n <= |out|
    ensures Aimed(out[..n], aims[..n], w)
  {
    forall k | 0 <= k < n ensures out[..n][k].day == Place(out[..n][..k], w, aims[..n][k].day, aims[..n][k].deadline) {
      assert out[..n][..k] == out[..k];
    }
  }

  lemma {:induction false} SpreadAimed(placed: seq<Session>, aims: seq<Aim>, c: Candidate, w: Window, k: nat)
    requires Aimed(placed, aims, w)
    ensures Aimed(Spread(placed, c, w, k), aims + AimsOf(c, w, k), w)
  {
    if k == 0 {
      assert aims + AimsOf(c, w, 0) == aims;
    } else {
      var out, a := Spread(placed, c, w, k - 1), Aim(Target(c, w, k - 1), c.deadline);
      SpreadAimed(placed, aims, c, w, k - 1);
      var session := Session(c.id, Place(out, w, a.day, a.deadline), k, Total(c), "");
      AimedSnoc(out, aims + AimsOf(c, w, k - 1), session, a, w);
      assert aims + AimsOf(c, w, k) == aims + AimsOf(c, w, k - 1) + [a];
    }
  }

  lemma {:induction false} SpreadAllAimed(ordered: seq<Candidate>, w: Window)
    ensures Aimed(SpreadAll(ordered, w), AimsAll(ordered, w), w)
  {
    if |ordered| > 0 {
      var n := |ordered| - 1;
      SpreadAllAimed(ordered[..n], w);
      SpreadAimed(SpreadAll(ordered[..n], w), AimsAll(ordered[..n], w), ordered[n], w, Total(ordered[n]));
    }
  }

  // ---- Everyone lands at or after their aim, past full days only ----

  lemma LandsAfterAim(out: seq<Session>, aims: seq<Aim>, w: Window, k: nat)
    requires Aimed(out, aims, w) && k < |out|
    ensures aims[k].day <= out[k].day
    ensures forall e | aims[k].day <= e < out[k].day :: !HasRoom(Tally(out[..k]), w.capacity, e)
  {
    NextOpenSkipsFullDays(Tally(out[..k]), aims[k].day, aims[k].deadline, w.end, w.capacity);
  }

  lemma {:induction false} LoadsGrow(out: seq<Session>, k: nat, n: nat, day: int)
    requires k <= n <= |out|
    ensures On(Tally(out[..k]), day) <= On(Tally(out[..n]), day)
  {
    if k < n {
      LoadsGrow(out, k, n - 1, day);
      assert out[..n] == out[..n - 1] + [out[n - 1]];
      Snoc(out[..n - 1], out[n - 1]);
    }
  }

  /** Whoever aims at `d` or later is found in [d, last], when everybody lands between their aim and `last`. */
  lemma {:induction false} AimedAreLoaded(out: seq<Session>, aims: seq<Aim>, d: int, last: int)
    requires |out| == |aims| && forall k | 0 <= k < |out| :: aims[k].day <= out[k].day <= last
    ensures From(aims, d) <= LoadBetween(Tally(out), d, last + 1)
  {
    if |out| > 0 {
      var n := |out| - 1;
      AimedAreLoaded(out[..n], aims[..n], d, last);
      assert aims == aims[..n] + [aims[n]];
      CountSnoc((a: Aim) => a.day >= d, aims[..n], aims[n]);
      LoadBetweenBump(Tally(out[..n]), d, last + 1, out[n].day);
    }
  }

  /** Nobody aims before the day that opens a stretch: it is the first day, or the day before it still has room. */
  ghost predicate Opens(load: Load, w: Window, d: int) { d == w.start || HasRoom(load, w.capacity, d - 1) }

  /** Whoever lands on an opening day `d` or later aimed there: the day before still has room. */
  lemma {:induction false} AimedThere(out: seq<Session>, aims: seq<Aim>, w: Window, d: int, k: nat)
    requires Aimed(out, aims, w) && k < |out| && Opens(Tally(out), w, d)
    requires aims[k].day >= w.start && d <= out[k].day
    ensures d <= aims[k].day
  {
    if aims[k].day < d {
      assert out[..|out|] == out;
      LandsAfterAim(out, aims, w, k);
      assert !HasRoom(Tally(out[..k]), w.capacity, d - 1);
      LoadsGrow(out, k, |out|, d - 1);
    }
  }

  lemma AllAimedThere(out: seq<Session>, aims: seq<Aim>, w: Window, d: int)
    requires Aimed(out, aims, w) && Opens(Tally(out), w, d) && forall x | x in aims :: x.day >= w.start
    ensures forall k | 0 <= k < |out| :: d <= out[k].day ==> d <= aims[k].day
  {
    forall k | 0 <= k < |out| && d <= out[k].day ensures d <= aims[k].day {
      assert aims[k] in aims;
      AimedThere(out, aims, w, d, k);
    }
  }

  lemma {:induction false} LoadedAreAimed(out: seq<Session>, aims: seq<Aim>, d: int, last: int)
    requires |out| == |aims| && forall k | 0 <= k < |out| :: d <= out[k].day ==> d <= aims[k].day
    ensures LoadBetween(Tally(out), d, last + 1) <= From(aims, d)
  {
    if |out| == 0 {
      EmptyLoad(d, last + 1);
    } else {
      var n := |out| - 1;
      LoadedAreAimed(out[..n], aims[..n], d, last);
      assert aims == aims[..n] + [aims[n]];
      LoadBetweenBump(Tally(out[..n]), d, last + 1, out[n].day);
      CountSnoc((a: Aim) => a.day >= d, aims[..n], aims[n]);
    }
  }

  /** Walking back from a full day to the day that opens its full stretch. */
  lemma {:induction false} OpeningDay(load: Load, w: Window, a: int, last: int) returns (d: int)
    requires w.start <= a && forall e | a <= e <= last :: !HasRoom(load, w.capacity, e)
    ensures w.start <= d <= a && Opens(load, w, d) && forall e | d <= e <= last :: !HasRoom(load, w.capacity, e)
    decreases a - w.start
  {
    if Opens(load, w, a) { d := a; } else { d := OpeningDay(load, w, a - 1, last); }
  }

  /** From every day on, no more sessions aim there than the days up to `last` can take. */
  ghost predicate Roomy(aims: seq<Aim>, w: Window, last: int) {
    forall d | w.start <= d <= last + 1 :: From(aims, d) <= w.capacity * (last - d + 1)
  }

  /** A full stretch from day `a` to `last` shows a day from which the aims already take all there is. */
  lemma FullStretchIsAimed(out: seq<Session>, aims: seq<Aim>, w: Window, a: int, last: int) returns (d: int)
    requires Aimed(out, aims, w) && w.start <= a <= last && forall x | x in aims :: x.day >= w.start
    requires forall e | a <= e <= last :: !HasRoom(Tally(out), w.capacity, e)
    ensures w.start <= d <= a && From(aims, d) >= w.capacity * (last - d + 1)
  {
    d := OpeningDay(Tally(out), w, a, last);
    assert LoadBetween(Tally(out), d, last + 1) >= w.capacity * (last - d + 1) by {
      FullDaysAddUp(Tally(out), w.capacity, d, last - d + 1);
    }
    AllAimedThere(out, aims, w, d);
    LoadedAreAimed(out, aims, d, last);
  }

  lemma OneMoreAim(aims: seq<Aim>, k: nat, d: int)
    requires k < |aims| && d <= aims[k].day
    ensures From(aims, d) > From(aims[..k], d)
  {
    assert aims == aims[..k] + [aims[k]] + aims[k + 1..];
    CountSnoc((a: Aim) => a.day >= d, aims[..k], aims[k]);
    CountAppend((a: Aim) => a.day >= d, aims[..k] + [aims[k]], aims[k + 1..]);
  }

  /** A session that finds every day from its aim to `last` full shows that the aims do not fit. */
  lemma FullStretchMeansTooMany(out: seq<Session>, aims: seq<Aim>, w: Window, k: nat, last: int)
    requires Aimed(out, aims, w) && k < |out| && w.start <= last + 1
    requires forall a | a in aims :: a.day >= w.start
    requires forall e | aims[k].day <= e <= last :: !HasRoom(Tally(out[..k]), w.capacity, e)
    ensures !Roomy(aims, w, last)
  {
    var d: int := last + 1;
    if aims[k].day <= last {
      AimedPrefix(out, aims, w, k);
      assert aims[k] in aims;
      d := FullStretchIsAimed(out[..k], aims[..k], w, aims[k].day, last);
    }
    OneMoreAim(aims, k, d);
    assert w.start <= d <= last + 1;
  }

  // ---- The two exact conditions, for aimed sessions ----

  ghost predicate Finishes(out: seq<Session>, w: Window) {
    forall k | 0 <= k < |out| :: !Outside(out[k].day, w)
  }

  lemma WithinCapacityIsRoomy(out: seq<Session>, aims: seq<Aim>, w: Window, last: int)
    requires Aimed(out, aims, w) && WithinCapacity(out, w.capacity)
    requires forall k | 0 <= k < |out| :: out[k].day <= last
    ensures Roomy(aims, w, last)
  {
    forall k | 0 <= k < |out| ensures aims[k].day <= out[k].day { LandsAfterAim(out, aims, w, k); }
    forall d | w.start <= d <= last + 1 ensures From(aims, d) <= w.capacity * (last - d + 1) {
      AimedAreLoaded(out, aims, d, last);
      BoundedDaysAddUp(Tally(out), w.capacity, d, last - d + 1);
    }
  }

  lemma AimedFinishesIff(out: seq<Session>, aims: seq<Aim>, w: Window)
    requires w.end.Some? && w.start <= w.end.value && Aimed(out, aims, w) && Grows([], out, w)
    requires forall a | a in aims :: a.day >= w.start
    ensures Finishes(out, w) <==> Roomy(aims, w, w.end.value)
  {
    if Finishes(out, w) {
      InWindowStaysWithinCapacity(out, w);
      WithinCapacityIsRoomy(out, aims, w, w.end.value);
    }
    if Roomy(aims, w, w.end.value) {
      forall k | 0 <= k < |out| ensures !Outside(out[k].day, w) {
        assert aims[k] in aims;
        LandsAfterAim(out, aims, w, k);
        if out[k].day > w.end.value { FullStretchMeansTooMany(out, aims, w, k, w.end.value); }
      }
    }
  }

  /** All searches give up after the same day. */
  ghost predicate GiveUpAfter(aims: seq<Aim>, w: Window, last: int) {
    forall a | a in aims ::
      w.start <= a.day <= last && OverflowStop(a.day, w.end) + 1 == last && Reach(a.day, a.deadline, w.end) < last
  }

  lemma LandsBeforeGivingUp(out: seq<Session>, aims: seq<Aim>, w: Window, k: nat, last: int)
    requires Aimed(out, aims, w) && GiveUpAfter(aims, w, last) && k < |out|
    ensures out[k].day <= last
  {
    assert aims[k] in aims;
  }

  /** A search that returns a full day has seen every day from its aim to the last. */
  lemma FullAnswer(load: Load, a: Aim, end: Option<int>, capacity: nat, last: int)
    requires a.day <= last && OverflowStop(a.day, end) + 1 == last && Reach(a.day, a.deadline, end) == last - 1
    requires !HasRoom(load, capacity, NextOpen(load, a.day, a.deadline, end, capacity))
    ensures forall e | a.day <= e <= last :: !HasRoom(load, capacity, e)
  {
    NextOpenHasRoomIff(load, a.day, a.deadline, end, capacity);
  }

  lemma FullDayMeansFullStretch(out: seq<Session>, aims: seq<Aim>, w: Window, k: nat, last: int)
    requires Aimed(out, aims, w) && GiveUpAfter(aims, w, last) && k < |out|
    requires !HasRoom(Tally(out[..k]), w.capacity, out[k].day)
    ensures forall e | aims[k].day <= e <= last :: !HasRoom(Tally(out[..k]), w.capacity, e)
  {
    assert aims[k] in aims;
    FullAnswer(Tally(out[..k]), aims[k], w.end, w.capacity, last);
  }

  /** Session `k` landed on a day that had room. */
  ghost predicate FoundRoom(out: seq<Session>, k: nat, w: Window)
    requires k < |out|
  {
    HasRoom(Tally(out[..k]), w.capacity, out[k].day)
  }

  lemma RoomyDayHasRoom(out: seq<Session>, aims: seq<Aim>, w: Window, last: int, k: nat)
    requires Aimed(out, aims, w) && GiveUpAfter(aims, w, last) && Roomy(aims, w, last) && k < |out|
    ensures FoundRoom(out, k, w)
  {
    if !FoundRoom(out, k, w) {
      assert aims[k] in aims;
      FullDayMeansFullStretch(out, aims, w, k, last);
      FullStretchMeansTooMany(out, aims, w, k, last);
    }
  }

  lemma OneMoreFoundRoom(out: seq<Session>, w: Window, k: nat)
    requires k < |out| && FoundRoom(out, k, w) && WithinCapacity(out[..k], w.capacity)
    ensures WithinCapacity(out[..k + 1], w.capacity)
  {
    AddOpenDay(out[..k], out[k], w);
    assert out[..k + 1] == out[..k] + [out[k]];
  }

  lemma {:induction false} OpenDaysStayWithinCapacity(out: seq<Session>, w: Window, n: nat)
    requires n <= |out| && forall k | 0 <= k < |out| :: FoundRoom(out, k, w)
    ensures WithinCapacity(out[..n], w.capacity)
  {
    if n > 0 {
      OpenDaysStayWithinCapacity(out, w, n - 1);
      OneMoreFoundRoom(out, w, n - 1);
    }
  }

  lemma AimedLimitIff(out: seq<Session>, aims: seq<Aim>, w: Window, last: int)
    requires Aimed(out, aims, w) && GiveUpAfter(aims, w, last)
    ensures WithinCapacity(out, w.capacity) <==> Roomy(aims, w, last)
  {
    if WithinCapacity(out, w.capacity) {
      forall k | 0 <= k < |out| ensures out[k].day <= last { LandsBeforeGivingUp(out, aims, w, k, last); }
      WithinCapacityIsRoomy(out, aims, w, last);
    }
    if Roomy(aims, w, last) {
      forall k | 0 <= k < |out| ensures FoundRoom(out, k, w) { RoomyDayHasRoom(out, aims, w, last, k); }
      OpenDaysStayWithinCapacity(out, w, |out|);
      assert out[..|out|] == out;
    }
  }

  // ---- The same, from the candidates ----

  /** Sessions the candidates will aim at day `d` or later. */
  function WorkFrom(candidates: seq<Candidate>, w: Window, d: int): nat {
    Sum((c: Candidate) => From(AimsOf(c, w, Total(c)), d), candidates)
  }

  /** From every day on, no more work aims there than the days up to `last` can take. */
  ghost predicate LeavesRoom(candidates: seq<Candidate>, w: Window, last: int) {
    forall d | w.start <= d <= last + 1 :: WorkFrom(candidates, w, d) <= w.capacity * (last - d + 1)
  }

  lemma {:induction false} AimsAllWork(ordered: seq<Candidate>, w: Window, d: int)
    ensures From(AimsAll(ordered, w), d) == WorkFrom(ordered, w, d)
  {
    if |ordered| > 0 {
      var n := |ordered| - 1;
      var c, front := ordered[n], AimsAll(ordered[..n], w);
      AimsAllWork(ordered[..n], w, d);
      CountAppend((a: Aim) => a.day >= d, front, AimsOf(c, w, Total(c)));
      SumSnoc((c: Candidate) => From(AimsOf(c, w, Total(c)), d), ordered[..n], c);
      assert ordered == ordered[..n] + [c];
    }
  }

  /** The aims of the whole schedule, in scheduling order. */
  function RuleAims(candidates: seq<Candidate>, w: Window): seq<Aim> { AimsAll(RuleOrder(candidates, w), w) }

  lemma RuleRoomyIff(candidates: seq<Candidate>, w: Window, last: int)
    ensures Roomy(RuleAims(candidates, w), w, last) <==> LeavesRoom(candidates, w, last)
  {
    forall d ensures From(RuleAims(candidates, w), d) == WorkFrom(candidates, w, d) {
      AimsAllWork(RuleOrder(candidates, w), w, d);
      SumSort((c: Candidate) => From(AimsOf(c, w, Total(c)), d), (a, b) => RuleBefore(w.end, a, b), candidates);
    }
  }

  ghost predicate AimOf(a: Aim, c: Candidate, w: Window) {
    exists i: nat :: i < Total(c) && a == Aim(Target(c, w, i), c.deadline)
  }

  lemma {:induction false} AimsOfHold(c: Candidate, w: Window, k: nat)
    requires k <= Total(c)
    ensures |AimsOf(c, w, k)| == k && forall a | a in AimsOf(c, w, k) :: AimOf(a, c, w)
  {
    if k > 0 {
      AimsOfHold(c, w, k - 1);
      assert AimOf(Aim(Target(c, w, k - 1), c.deadline), c, w);
    }
  }

  lemma {:induction false} AimsAllHold(ordered: seq<Candidate>, w: Window)
    ensures forall a | a in AimsAll(ordered, w) :: exists c :: c in ordered && AimOf(a, c, w)
  {
    if |ordered| > 0 {
      var n := |ordered| - 1;
      AimsAllHold(ordered[..n], w);
      AimsOfHold(ordered[n], w, Total(ordered[n]));
      forall a | a in AimsAll(ordered, w) ensures exists c :: c in ordered && AimOf(a, c, w) {
        if a in AimsAll(ordered[..n], w) {
          var c :| c in ordered[..n] && AimOf(a, c, w);
          assert c in ordered;
        } else {
          assert a in AimsOf(ordered[n], w, Total(ordered[n]));
        }
      }
    }
  }

  lemma RuleAimsHold(candidates: seq<Candidate>, w: Window)
    ensures Aimed(Rule(candidates, w), RuleAims(candidates, w), w)
    ensures forall a | a in RuleAims(candidates, w) :: a.day >= w.start && exists c :: c in candidates && AimOf(a, c, w)
  {
    var ordered := RuleOrder(candidates, w);
    SpreadAllAimed(ordered, w);
    AimsAllHold(ordered, w);
    SortPermutes((a, b) => RuleBefore(w.end, a, b), candidates);
    forall a | a in RuleAims(candidates, w) ensures a.day >= w.start && exists c :: c in candidates && AimOf(a, c, w) {
      var c :| c in ordered && AimOf(a, c, w);
      assert c in multiset(ordered);
      assert c in multiset(candidates);
    }
  }

  /** For any candidates and deadlines: the rule schedule finishes inside its window exactly when, from every day on, no
      more work aims there than the rest of the window can take. */
  lemma RuleFinishesIff(candidates: seq<Candidate>, w: Window)
    requires w.end.Some? && w.start <= w.end.value
    ensures Finishes(Rule(candidates, w), w) <==> LeavesRoom(candidates, w, w.end.value)
  {
    RuleAimsHold(candidates, w);
    RuleAccountsForAll(candidates, w);
    AimedFinishesIff(Rule(candidates, w), RuleAims(candidates, w), w);
    RuleRoomyIff(candidates, w, w.end.value);
  }

  lemma InsideAimsGiveUp(candidates: seq<Candidate>, w: Window)
    requires w.end.Some? && w.start <= w.end.value
    requires forall c | c in candidates :: c.deadline.Some? ==> c.deadline.value <= w.end.value
    ensures GiveUpAfter(RuleAims(candidates, w), w, w.end.value + 366)
  {
    RuleAimsHold(candidates, w);
    forall a | a in RuleAims(candidates, w)
      ensures w.start <= a.day <= w.end.value && (a.deadline.Some? ==> a.deadline.value <= w.end.value)
    {
      var c :| c in candidates && AimOf(a, c, w);
      var i: nat :| i < Total(c) && a == Aim(Target(c, w, i), c.deadline);
      TargetsAdvanceInsideWindow(c, w, i, i);
    }
  }

  /** With deadlines at or before the finish date: the rule schedule keeps the daily limit exactly when, from every day
      on, no more work aims there than the days up to 366 past the finish date can take. */
  lemma RuleLimitIff(candidates: seq<Candidate>, w: Window)
    requires w.end.Some? && w.start <= w.end.value
    requires forall c | c in candidates :: c.deadline.Some? ==> c.deadline.value <= w.end.value
    ensures WithinCapacity(Rule(candidates, w), w.capacity) <==> LeavesRoom(candidates, w, w.end.value + 366)
  {
    RuleAimsHold(candidates, w);
    InsideAimsGiveUp(candidates, w);
    AimedLimitIff(Rule(candidates, w), RuleAims(candidates, w), w, w.end.value + 366);
    RuleRoomyIff(candidates, w, w.end.value + 366);
  }

  // ---- Work aimed at the first day ----

  /** All of a candidate's sessions aim at the first day: there is one, or there are no days to spread it over. */
  predicate AimsAtStart(c: Candidate, w: Window) { Total(c) == 1 || Span(c, w) == 0 }

  lemma StarterTarget(c: Candidate, w: Window, i: nat)
    requires AimsAtStart(c, w) && i < Total(c)
    ensures Target(c, w, i) == w.start
  {
    if Span(c, w) == 0 { assert i * Span(c, w) == 0; }
  }

  lemma {:induction false} AimsUpTo(c: Candidate, w: Window, k: nat, d: int)
    requires k <= Total(c)
    ensures d <= w.start ==> From(AimsOf(c, w, k), d) == k
    ensures AimsAtStart(c, w) && d > w.start ==> From(AimsOf(c, w, k), d) == 0
  {
    if k > 0 {
      AimsUpTo(c, w, k - 1, d);
      if AimsAtStart(c, w) { StarterTarget(c, w, k - 1); }
      CountSnoc((a: Aim) => a.day >= d, AimsOf(c, w, k - 1), Aim(Target(c, w, k - 1), c.deadline));
    }
  }

  /** All work aims at the first day or later. */
  lemma WorkFromStart(candidates: seq<Candidate>, w: Window)
    ensures WorkFrom(candidates, w, w.start) == Work(candidates)
  {
    forall c | c in candidates ensures From(AimsOf(c, w, Total(c)), w.start) == Total(c) {
      AimsUpTo(c, w, Total(c), w.start);
    }
    SumAgrees((c: Candidate) => From(AimsOf(c, w, Total(c)), w.start), (c: Candidate) => Total(c), candidates);
  }

  lemma StartersLeaveRoomIff(candidates: seq<Candidate>, w: Window, last: int)
    requires w.start <= last && forall c | c in candidates :: AimsAtStart(c, w)
    ensures LeavesRoom(candidates, w, last) <==> Work(candidates) <= w.capacity * (last - w.start + 1)
  {
    WorkFromStart(candidates, w);
    forall d | w.start < d <= last + 1 ensures WorkFrom(candidates, w, d) == 0 <= w.capacity * (last - d + 1) {
      forall c | c in candidates ensures From(AimsOf(c, w, Total(c)), d) == 0 { AimsUpTo(c, w, Total(c), d); }
      SumZero((c: Candidate) => From(AimsOf(c, w, Total(c)), d), candidates);
      ProductMonotone(0, last - d + 1, w.capacity);
    }
  }

  /** With all work aimed at the first day, the schedule finishes in time exactly when the work fits the window. */
  lemma StartersFinishIff(candidates: seq<Candidate>, w: Window)
    requires w.end.Some? && w.start <= w.end.value && forall c | c in candidates :: AimsAtStart(c, w)
    ensures Finishes(Rule(candidates, w), w) <==> Work(candidates) <= w.capacity * (w.end.value - w.start + 1)
  {
    RuleFinishesIff(candidates, w);
    StartersLeaveRoomIff(candidates, w, w.end.value);
  }

  /** With all work aimed at the first day of a D-day window, the daily limit holds exactly up to (D + 366) * capacity
      sessions. */
  lemma RuleLimitIsSharp(candidates: seq<Candidate>, w: Window)
    requires w.end.Some? && w.start <= w.end.value
    requires forall c | c in candidates :: AimsAtStart(c, w) && (c.deadline.Some? ==> c.deadline.value <= w.end.value)
    ensures WithinCapacity(Rule(candidates, w), w.capacity) <==>
            Work(candidates) <= w.capacity * (w.end.value - w.start + 367)
  {
    RuleLimitIff(candidates, w);
    StartersLeaveRoomIff(candidates, w, w.end.value + 366);
  }

  /** Without a finish date or a deadline to come, the daily limit holds exactly up to 732 * capacity sessions. */
  lemma OpenEndedLimitIff(candidates: seq<Candidate>, w: Window)
    requires w.end.None? && forall c | c in candidates :: c.deadline.Some? ==> c.deadline.value < w.start
    ensures WithinCapacity(Rule(candidates, w), w.capacity) <==> Work(candidates) <= w.capacity * 732
  {
    RuleAimsHold(candidates, w);
    forall a | a in RuleAims(candidates, w)
      ensures a.day == w.start && (a.deadline.Some? ==> a.deadline.value < w.start)
    {
      var c :| c in candidates && AimOf(a, c, w);
      var i: nat :| i < Total(c) && a == Aim(Target(c, w, i), c.deadline);
      StarterTarget(c, w, i);
    }
    AimedLimitIff(Rule(candidates, w), RuleAims(candidates, w), w, w.start + 731);
    RuleRoomyIff(candidates, w, w.start + 731);
    StartersLeaveRoomIff(candidates, w, w.start + 731);
  }

  /** A schedule within the limit over a D-day window has at most (D + 366) * capacity sessions. */
  lemma RuleCannotExceed(candidates: seq<Candidate>, w: Window)
    requires w.end.Some? && w.start <= w.end.value
    requires forall c | c in candidates :: c.deadline.Some? ==> c.deadline.value <= w.end.value
    requires WithinCapacity(Rule(candidates, w), w.capacity)
    ensures |Rule(candidates, w)| <= w.capacity * (w.end.value - w.start + 367)
  {
    RuleLimitIff(candidates, w);
    WorkFromStart(candidates, w);
    RuleSize(candidates, w);
  }
}
