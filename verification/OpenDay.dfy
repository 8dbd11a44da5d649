/** The day allocator: a per-day load table and the three-phase search for a day with room. */
module OpenDay {
  import opened Prelude

  const OVERFLOW_DAYS := 365

  /** Sessions already placed, per day; an absent day carries none. */
  type Load = map<int, nat>

  function On(load: Load, day: int): nat { if day in load then load[day] else 0 }

  function Bump(load: Load, day: int): Load { load[day := On(load, day) + 1] }

  predicate HasRoom(load: Load, capacity: nat, day: int) { On(load, day) < capacity }

  /** The last day of the window proper: the finish date, or a year out when it does not bound the search. */
  function HardStop(start: int, end: Option<int>): int {
    if end.Some? && end.value >= start then end.value else start + 365
  }

  function OverflowStop(start: int, end: Option<int>): int { HardStop(start, end) + OVERFLOW_DAYS }

  /** The deadline as a search bound, cut by the finish date. */
  function Limit(start: int, deadline: Option<int>, end: Option<int>): Option<int> {
    if deadline.None? || deadline.value < start then None
    else if end.Some? && end.value >= start then Some(Min(deadline.value, end.value))
    else deadline
  }

  /** The last day any phase of the search inspects. */
  function Reach(start: int, deadline: Option<int>, end: Option<int>): int {
    var limit := Limit(start, deadline, end);
    if limit.Some? then Max(limit.value, OverflowStop(start, end)) else OverflowStop(start, end)
  }

  /** The simple search: the first day from `day` on with room, or `stop + 1` when there is none. */
  function FirstOpen(load: Load, capacity: nat, day: int, stop: int): int
    decreases stop - day
  {
    if day > stop || HasRoom(load, capacity, day) then day else FirstOpen(load, capacity, day + 1, stop)
  }

  function NextOpen(load: Load, start: int, deadline: Option<int>, end: Option<int>, capacity: nat): int {
    var reach := Reach(start, deadline, end);
    var day := FirstOpen(load, capacity, start, reach);
    if day <= reach then day else OverflowStop(start, end) + 1
  }

  lemma {:induction false} FirstOpenIsLeast(load: Load, capacity: nat, day: int, stop: int)
    ensures var d := FirstOpen(load, capacity, day, stop);
            day <= d && (day <= stop ==> d <= stop + 1) &&
            (forall e | day <= e < d :: !HasRoom(load, capacity, e)) &&
            (d <= stop ==> HasRoom(load, capacity, d))
    decreases stop - day
  {
    if day > stop || HasRoom(load, capacity, day) {
    } else {
      FirstOpenIsLeast(load, capacity, day + 1, stop);
    }
  }

  lemma {:induction false} FirstOpenUnique(load: Load, capacity: nat, day: int, stop: int, d: int)
    requires day <= d
    requires forall e | day <= e < d :: !HasRoom(load, capacity, e)
    requires (d <= stop && HasRoom(load, capacity, d)) || d == stop + 1
    ensures FirstOpen(load, capacity, day, stop) == d
    decreases d - day
  {
    if day < d {
      FirstOpenUnique(load, capacity, day + 1, stop, d);
    }
  }

  /** The three-phase scan computes the simple search, whatever the deadline. */
  method NextOpenDay(load: Load, start: int, deadline: Option<int>, end: Option<int>, capacity: nat)
    returns (day: int)
    ensures day == NextOpen(load, start, deadline, end, capacity)
  {
    var reach := Reach(start, deadline, end);
    var limit := Limit(start, deadline, end);
    if limit.Some? {
      day := start;
      while day <= limit.value
        invariant start <= day <= limit.value + 1
        invariant forall e | start <= e < day :: !HasRoom(load, capacity, e)
      {
        if HasRoom(load, capacity, day) {
          FirstOpenUnique(load, capacity, start, reach, day);
          return;
        }
        day := day + 1;
      }
    }
    var hardStop := HardStop(start, end);
    day := start;
    while day <= hardStop
      invariant start <= day <= hardStop + 1
      invariant forall e | start <= e < day :: !HasRoom(load, capacity, e)
    {
      if HasRoom(load, capacity, day) {
        FirstOpenUnique(load, capacity, start, reach, day);
        return;
      }
      day := day + 1;
    }
    var overflowStop := hardStop + OVERFLOW_DAYS;
    while day <= overflowStop
      invariant start <= day <= overflowStop + 1
      invariant forall e | start <= e < day :: !HasRoom(load, capacity, e)
    {
      if HasRoom(load, capacity, day) {
        FirstOpenUnique(load, capacity, start, reach, day);
        return;
      }
      day := day + 1;
    }
    FirstOpenIsLeast(load, capacity, start, reach);
    assert forall e | start <= e <= reach :: !HasRoom(load, capacity, e);
  }

  /** Whenever some inspected day has room the search returns the least such day. */
  lemma NextOpenIsLeast(load: Load, start: int, deadline: Option<int>, end: Option<int>, capacity: nat, open: int)
    requires start <= open <= Reach(start, deadline, end) && HasRoom(load, capacity, open)
    ensures var day := NextOpen(load, start, deadline, end, capacity);
            start <= day <= open && HasRoom(load, capacity, day) &&
            forall e | start <= e < day :: !HasRoom(load, capacity, e)
  {
    FirstOpenIsLeast(load, capacity, start, Reach(start, deadline, end));
  }

  /** Which days the search reaches, spelled out: a day with room is never passed over up to 365 days past the finish
      date, up to 730 days from the start when no finish date bounds it, and up to a deadline without one. */
  lemma NextOpenFinds(load: Load, start: int, deadline: Option<int>, end: Option<int>, capacity: nat, open: int)
    requires start <= open && HasRoom(load, capacity, open)
    requires if end.Some? && end.value >= start then open <= end.value + 365
             else open <= start + 730 || (deadline.Some? && open <= deadline.value)
    ensures var day := NextOpen(load, start, deadline, end, capacity);
            start <= day <= open && HasRoom(load, capacity, day) &&
            forall e | start <= e < day :: !HasRoom(load, capacity, e)
  {
    NextOpenIsLeast(load, start, deadline, end, capacity, open);
  }

  /** The returned day has room exactly when an inspected day does, or the one day past the overflow does. */
  lemma NextOpenHasRoomIff(load: Load, start: int, deadline: Option<int>, end: Option<int>, capacity: nat)
    ensures HasRoom(load, capacity, NextOpen(load, start, deadline, end, capacity)) <==>
            (exists d | start <= d <= Reach(start, deadline, end) :: HasRoom(load, capacity, d)) ||
            HasRoom(load, capacity, OverflowStop(start, end) + 1)
    ensures start <= NextOpen(load, start, deadline, end, capacity)
  {
    FirstOpenIsLeast(load, capacity, start, Reach(start, deadline, end));
  }

  /** How many days in a row must be full before the search returns a full one. */
  function FullRun(end: Option<int>): nat { if end.Some? then 367 else 732 }

  /** A day the search passed over was full; a day it returns without room means that many full days in a row. */
  lemma NextOpenSkipsFullDays(load: Load, start: int, deadline: Option<int>, end: Option<int>, capacity: nat)
    ensures var day := NextOpen(load, start, deadline, end, capacity);
            start <= day &&
            (forall e | start <= e < day :: !HasRoom(load, capacity, e)) &&
            (!HasRoom(load, capacity, day) ==>
               forall e | start <= e < start + FullRun(end) :: !HasRoom(load, capacity, e))
  {
    var reach := Reach(start, deadline, end);
    FirstOpenIsLeast(load, capacity, start, reach);
    var day := NextOpen(load, start, deadline, end, capacity);
    if !HasRoom(load, capacity, day) {
      forall e | start <= e < start + FullRun(end) ensures !HasRoom(load, capacity, e) {
        assert e <= reach || e == day;
      }
    }
  }

  // ---- Pigeonhole ----

  /** Sum of the loads of the days in [from, until). */
  function LoadBetween(load: Load, from: int, until: int): nat
    decreases until - from
  {
    if from >= until then 0 else LoadBetween(load, from, until - 1) + On(load, until - 1)
  }

  lemma {:induction false} LoadBetweenBump(load: Load, from: int, until: int, day: int)
    ensures LoadBetween(Bump(load, day), from, until) ==
            LoadBetween(load, from, until) + (if from <= day < until then 1 else 0)
    decreases until - from
  {
    if from >= until {
    } else {
      LoadBetweenBump(load, from, until - 1, day);
    }
  }

  lemma {:induction false} FullDaysAddUp(load: Load, capacity: nat, from: int, days: nat)
    requires forall d | from <= d < from + days :: !HasRoom(load, capacity, d)
    ensures LoadBetween(load, from, from + days) >= capacity * days
  {
    if days == 0 {
    } else {
      FullDaysAddUp(load, capacity, from, days - 1);
      assert !HasRoom(load, capacity, from + days - 1);
      assert capacity * days == capacity * (days - 1) + capacity;
    }
  }

  lemma {:induction false} BoundedDaysAddUp(load: Load, capacity: nat, from: int, days: nat)
    requires forall d | from <= d < from + days :: On(load, d) <= capacity
    ensures LoadBetween(load, from, from + days) <= capacity * days
  {
    if days == 0 {
    } else {
      BoundedDaysAddUp(load, capacity, from, days - 1);
      assert On(load, from + days - 1) <= capacity;
      assert capacity * days == capacity * (days - 1) + capacity;
    }
  }
}
