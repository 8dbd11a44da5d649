/** How much work an item needs and how heavy a day may be. */
module Effort {
  import opened Prelude

  const PAGES_PER_SESSION := 12
  const MAX_SESSIONS_PER_ITEM := 6
  const MAX_SESSIONS_PER_DAY := 8
  const DEPTH_CEILING := MAX_SESSIONS_PER_ITEM + 2

  function CeilDiv(n: int, d: int): int
    requires d > 0
  {
    -((-n) / d)
  }

  /** Sessions suggested by the page count alone. */
  function PageSessions(length: Option<int>): int {
    var pages := if length.Some? then length.value else 0;
    Min(Max(1, CeilDiv(pages, PAGES_PER_SESSION)), MAX_SESSIONS_PER_ITEM)
  }

  /** A mastery as the sizing reads it. */
  function Known(mastery: real): real { if mastery < 0.0 then 0.0 else if mastery > 1.0 then 1.0 else mastery }

  function Scaled(sessions: int, mastery: real): real { sessions as real * (1.75 - 1.15 * Known(mastery)) }

  function EffortUnits(length: Option<int>, mastery: Option<real>): int {
    var sessions := PageSessions(length);
    var scaled := if mastery.Some? then Round(Scaled(sessions, mastery.value)) else sessions;
    Max(1, Min(scaled, DEPTH_CEILING))
  }

  lemma EffortInRange(length: Option<int>, mastery: Option<real>)
    ensures 1 <= EffortUnits(length, mastery) <= 8
  {}

  lemma CeilDivMonotone(a: int, b: int, d: int)
    requires d > 0 && a <= b
    ensures CeilDiv(a, d) <= CeilDiv(b, d)
  {
    var x, y := (-a) / d, (-b) / d;
    assert x * d <= -a < x * d + d && y * d <= -b < y * d + d;
    assert (x + 1) * d == x * d + d;
    CancelFactor(y, x + 1, d);
  }

  lemma ProductNonNegative(x: real, y: real)
    requires x >= 0.0 && y >= 0.0
    ensures x * y >= 0.0
  {}

  lemma ScaledMonotone(few: int, many: int, mastery: real, stronger: real)
    requires 0 <= few <= many && mastery <= stronger
    ensures Scaled(few, mastery) <= Scaled(many, mastery)
    ensures Scaled(few, stronger) <= Scaled(few, mastery)
  {
    ProductNonNegative((many - few) as real, 1.75 - 1.15 * Known(mastery));
    ProductNonNegative(few as real, 1.15 * Known(stronger) - 1.15 * Known(mastery));
  }

  /** More pages never mean fewer sessions, and a stronger topic never needs more. */
  lemma EffortMonotone(pages: int, more: int, mastery: Option<real>, stronger: Option<real>)
    requires pages <= more
    requires mastery.Some? <==> stronger.Some?
    requires mastery.Some? ==> mastery.value <= stronger.value
    ensures EffortUnits(Some(pages), mastery) <= EffortUnits(Some(more), mastery)
    ensures EffortUnits(Some(pages), stronger) <= EffortUnits(Some(pages), mastery)
  {
    CeilDivMonotone(pages, more, PAGES_PER_SESSION);
    if mastery.Some? {
      var few, many := PageSessions(Some(pages)), PageSessions(Some(more));
      ScaledMonotone(few, many, mastery.value, stronger.value);
      RoundMonotone(Scaled(few, mastery.value), Scaled(many, mastery.value));
      RoundMonotone(Scaled(few, stronger.value), Scaled(few, mastery.value));
    }
  }

  /** Without mastery: the fewest sessions of twelve pages that cover the document, at least one and at most six. */
  lemma EffortCoversPages(pages: int)
    ensures var n := EffortUnits(Some(pages), None);
            1 <= n <= 6 && (n == 6 || pages <= 12 * n) && (n > 1 ==> 12 * (n - 1) < pages)
    ensures EffortUnits(None, None) == 1
  {
    var x := (-pages) / PAGES_PER_SESSION;
    assert x * 12 <= -pages < x * 12 + 12;
  }

  /** Rounding and clamping to 1..8 stays within a half, except at the two ends. */
  lemma ClampedRoundNear(x: real)
    ensures var n := Max(1, Min(Round(x), 8));
            (n == 1 && x <= 1.5) || (n == 8 && x >= 7.5) || x - 0.5 <= n as real <= x + 0.5
  {
    RoundNear(x);
  }

  lemma ScaledApart(sessions: int, mastery: real)
    ensures Scaled(sessions, mastery) == sessions as real * 1.75 - sessions as real * Known(mastery) * 1.15
  {}

  lemma SizedByMastery(length: Option<int>, mastery: real, exact: real)
    requires exact == Scaled(PageSessions(length), mastery)
    ensures EffortUnits(length, Some(mastery)) == Max(1, Min(Round(exact), 8))
  {}

  /** With mastery: those sessions times 1.75 for a topic not known at all, down to 0.6 for one fully known, to the
      nearest whole number between 1 and 8. */
  lemma EffortIsNearest(length: Option<int>, mastery: real, exact: real)
    requires exact == EffortUnits(length, None) as real * (1.75 - 1.15 * Known(mastery))
    ensures var n := EffortUnits(length, Some(mastery));
            (n == 1 && exact <= 1.5) || (n == 8 && exact >= 7.5) || exact - 0.5 <= n as real <= exact + 0.5
  {
    assert EffortUnits(length, None) == PageSessions(length);
    SizedByMastery(length, mastery, exact);
    ClampedRoundNear(exact);
  }

  lemma ProductOrder(base: real, known: real)
    requires base >= 0.0
    ensures known <= 0.2 ==> base * known <= base * 0.2
    ensures known >= 0.9 ==> base * known >= base * 0.9
  {
    if known <= 0.2 { ProductNonNegative(base, 0.2 - known); }
    if known >= 0.9 { ProductNonNegative(base, known - 0.9); }
  }

  lemma WeakGains(length: Option<int>, mastery: real)
    requires mastery <= 0.2
    ensures EffortUnits(length, Some(mastery)) > EffortUnits(length, None)
  {
    var base := PageSessions(length);
    ScaledApart(base, mastery);
    ProductOrder(base as real, Known(mastery));
    RoundMonotone(base as real * 1.52, Scaled(base, mastery));
  }

  lemma StrongDoesNotGain(length: Option<int>, mastery: real)
    requires mastery >= 0.9
    ensures EffortUnits(length, Some(mastery)) <= EffortUnits(length, None)
  {
    var base := PageSessions(length);
    ScaledApart(base, mastery);
    ProductOrder(base as real, Known(mastery));
    RoundMonotone(Scaled(base, mastery), base as real * 0.715);
  }

  /** A topic known at most to a fifth always gains sessions over one never tested, one known to nine tenths never
      does. */
  lemma WeakTopicsGain(length: Option<int>, mastery: real)
    ensures mastery <= 0.2 ==> EffortUnits(length, Some(mastery)) > EffortUnits(length, None)
    ensures mastery >= 0.9 ==> EffortUnits(length, Some(mastery)) <= EffortUnits(length, None)
  {
    if mastery <= 0.2 { WeakGains(length, mastery); }
    if mastery >= 0.9 { StrongDoesNotGain(length, mastery); }
  }

  /** The two ends of the scale, session by session, half-way cases to the even number. */
  lemma EffortAtTheEnds(length: Option<int>)
    ensures EffortUnits(length, Some(0.0)) == [2, 4, 5, 7, 8, 8][EffortUnits(length, None) - 1]
    ensures EffortUnits(length, Some(1.0)) == [1, 1, 2, 2, 3, 4][EffortUnits(length, None) - 1]
  {
    var base := PageSessions(length);
    assert 1 <= base <= 6;
    assert Scaled(base, 0.0) == base as real * 1.75;
    assert Scaled(base, 1.0) == base as real * 0.6;
  }

  function TotalEffort(efforts: seq<int>): nat {
    if |efforts| == 0 then 0
    else TotalEffort(efforts[..|efforts| - 1]) + Max(1, efforts[|efforts| - 1])
  }

  function WindowDays(start: int, windowEnd: int): int { Max(1, windowEnd - start + 1) }

  /** Whether the requested finish date bounds the plan window. */
  predicate HorizonBinds(horizon: Option<int>, windowEnd: Option<int>) {
    horizon.Some? && windowEnd.Some? && horizon.value <= windowEnd.value
  }

  /** What the design asks for per day, else what the semester says. */
  function AskedLoad(capacity: int, chosen: int): int { if chosen > 0 then chosen else capacity }

  /** The asked load, raised to what a binding finish date needs, between 1 and 8. */
  function DailyLoad(capacity: int, chosen: int, horizon: Option<int>, efforts: seq<int>,
                     start: int, windowEnd: Option<int>): nat
  {
    var asked := AskedLoad(capacity, chosen);
    var wanted := if HorizonBinds(horizon, windowEnd)
                  then Max(asked, CeilDiv(TotalEffort(efforts), WindowDays(start, windowEnd.value))) else asked;
    Clamp(1, wanted, MAX_SESSIONS_PER_DAY)
  }

  method DesignCapacity(capacity: int, chosen: int, horizon: Option<int>, efforts: seq<int>,
                        start: int, windowEnd: Option<int>) returns (load: int)
    ensures load == DailyLoad(capacity, chosen, horizon, efforts, start, windowEnd)
    ensures 1 <= load <= 8
    ensures HorizonBinds(horizon, windowEnd) ==>
              load == 8 || load * WindowDays(start, windowEnd.value) >= TotalEffort(efforts)
    ensures var asked := AskedLoad(capacity, chosen);
            load >= Min(asked, 8) && (!HorizonBinds(horizon, windowEnd) ==> load == Clamp(1, asked, 8))
    ensures load > Max(1, AskedLoad(capacity, chosen)) ==>
              HorizonBinds(horizon, windowEnd) &&
              (load - 1) * WindowDays(start, windowEnd.value) < TotalEffort(efforts)
  {
    var wanted := capacity;
    if chosen > 0 { wanted := chosen; }
    if HorizonBinds(horizon, windowEnd) {
      var days := WindowDays(start, windowEnd.value);
      var total := 0;
      for i := 0 to |efforts|
        invariant total == TotalEffort(efforts[..i])
      {
        total := total + Max(1, efforts[i]);
        assert efforts[..i + 1][..i] == efforts[..i];
      }
      assert efforts[..|efforts|] == efforts;
      wanted := Max(wanted, CeilDiv(total, days));
    }
    load := Clamp(1, wanted, MAX_SESSIONS_PER_DAY);
    LoadFits(capacity, chosen, horizon, efforts, start, windowEnd);
  }

  /** The load fits the work into a binding window or is 8, and is raised no further than the work demands. */
  lemma LoadFits(capacity: int, chosen: int, horizon: Option<int>, efforts: seq<int>, start: int,
                 windowEnd: Option<int>)
    ensures var load := DailyLoad(capacity, chosen, horizon, efforts, start, windowEnd);
            1 <= load <= 8 && load >= Min(AskedLoad(capacity, chosen), 8) &&
            (HorizonBinds(horizon, windowEnd) ==>
               load == 8 || load * WindowDays(start, windowEnd.value) >= TotalEffort(efforts)) &&
            (load > Max(1, AskedLoad(capacity, chosen)) ==>
               HorizonBinds(horizon, windowEnd) &&
               (load - 1) * WindowDays(start, windowEnd.value) < TotalEffort(efforts))
  {
    if HorizonBinds(horizon, windowEnd) {
      var load := DailyLoad(capacity, chosen, horizon, efforts, start, windowEnd);
      var days := WindowDays(start, windowEnd.value);
      var needed := CeilDiv(TotalEffort(efforts), days);
      CeilDivCovers(TotalEffort(efforts), days);
      if load < 8 { ProductMonotone(needed, load, days); }
      if load > Max(1, AskedLoad(capacity, chosen)) { ProductMonotone(load - 1, needed - 1, days); }
    }
  }

  /** A horizon raises the load exactly when it binds, the asked load leaves room to rise, and the work does not fit
      it. */
  lemma HorizonRaisesIff(capacity: int, chosen: int, horizon: Option<int>, efforts: seq<int>,
                         start: int, windowEnd: Option<int>)
    requires AskedLoad(capacity, chosen) >= 1
    ensures var asked := AskedLoad(capacity, chosen);
            var load := DailyLoad(capacity, chosen, horizon, efforts, start, windowEnd);
            var plain := DailyLoad(capacity, chosen, None, efforts, start, windowEnd);
            load >= plain == Min(asked, 8) &&
            (load > plain <==> HorizonBinds(horizon, windowEnd) && asked < 8 &&
                               TotalEffort(efforts) > asked * WindowDays(start, windowEnd.value))
  {
    if HorizonBinds(horizon, windowEnd) {
      var asked, total, days := AskedLoad(capacity, chosen), TotalEffort(efforts), WindowDays(start, windowEnd.value);
      var needed := CeilDiv(total, days);
      CeilDivCovers(total, days);
      if needed <= asked { ProductMonotone(needed, asked, days); } else { ProductMonotone(asked, needed - 1, days); }
    }
  }

  lemma CeilDivCovers(n: int, d: int)
    requires d > 0
    ensures CeilDiv(n, d) * d >= n > (CeilDiv(n, d) - 1) * d
  {
    var x := (-n) / d;
    assert x * d <= -n < x * d + d;
  }
}
