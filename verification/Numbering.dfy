/** Renumbering in place: every candidate's sessions become 1..n of n, in date order. */
module Numbering {
  import opened Prelude
  import opened Text
  import opened OpenDay
  import opened Sessions

  /** Session `j` comes before session `i` of the same candidate: earlier day, list order on ties. */
  predicate Before(s: seq<Session>, j: nat, i: nat)
    requires i < |s| && j < |s|
  {
    s[j].day < s[i].day || (s[j].day == s[i].day && j < i)
  }

  function Predecessors(s: seq<Session>, i: nat): set<nat>
    requires i < |s|
  {
    set j: nat | j < |s| && s[j].candidate == s[i].candidate && Before(s, j, i)
  }

  function Rank(s: seq<Session>, i: nat): nat
    requires i < |s|
  {
    1 + |Predecessors(s, i)|
  }

  function Renumbered(s: seq<Session>): seq<Session> {
    seq(|s|, i requires 0 <= i < |s| => s[i].(number := Rank(s, i), total := Held(s, s[i].candidate)))
  }

  // ---- The sorting key: the list position makes the sort's stability explicit ----

  datatype Tagged = Tagged(pos: nat, session: Session)

  predicate TaggedBefore(a: Tagged, b: Tagged) {
    a.session.day < b.session.day ||
    (a.session.day == b.session.day &&
     if a.session.candidate == b.session.candidate then a.pos <= b.pos
     else StrLe(a.session.candidate, b.session.candidate))
  }

  lemma TaggedOrder()
    ensures TotalPreorder(TaggedBefore)
  {
    forall a: Tagged, b: Tagged ensures TaggedBefore(a, b) || TaggedBefore(b, a) {
      StrLeTotal(a.session.candidate, b.session.candidate);
    }
    forall a: Tagged, b: Tagged, c: Tagged | TaggedBefore(a, b) && TaggedBefore(b, c) ensures TaggedBefore(a, c) {
      var x, y, z := a.session.candidate, b.session.candidate, c.session.candidate;
      StrLeTotal(x, y);
      StrLeTotal(y, z);
      if StrLe(x, y) && StrLe(y, z) { StrLeTransitive(x, y, z); }
      StrLeTotal(x, z);
    }
  }

  function Enumerate(s: seq<Session>): seq<Tagged> {
    seq(|s|, i requires 0 <= i < |s| => Tagged(i, s[i]))
  }

  function Schedule(s: seq<Session>): seq<Tagged> { SortBy(TaggedBefore, Enumerate(s)) }

  /** The schedule visits every position once, in TaggedBefore order. */
  ghost predicate Visits(order: seq<Tagged>, s: seq<Session>) {
    |order| == |s| && Ordered(TaggedBefore, order) &&
    (forall k | 0 <= k < |order| :: order[k].pos < |s| && order[k].session == s[order[k].pos]) &&
    (forall i, j | 0 <= i < j < |order| :: order[i].pos != order[j].pos) &&
    (forall p | 0 <= p < |s| :: Tagged(p, s[p]) in order)
  }

  lemma ScheduleVisits(s: seq<Session>)
    ensures Visits(Schedule(s), s)
  {
    var e, order := Enumerate(s), Schedule(s);
    SortPermutes(TaggedBefore, e);
    TaggedOrder();
    SortOrders(TaggedBefore, e);
    forall x ensures multiset(order)[x] <= 1 { DistinctOccurOnce(e, x); }
    forall k | 0 <= k < |order| ensures order[k].pos < |s| && order[k].session == s[order[k].pos] {
      assert order[k] in multiset(order);
      assert order[k] in multiset(e);
      assert order[k] in e;
    }
    forall i, j | 0 <= i < j < |order| ensures order[i].pos != order[j].pos { OccurOnceDistinct(order, i, j); }
    forall p | 0 <= p < |s| ensures Tagged(p, s[p]) in order {
      assert e[p] in multiset(e);
      assert e[p] in multiset(order);
    }
  }

  /** Positions of one candidate's sessions among the first `k` visited. */
  ghost function Visited(order: seq<Tagged>, k: nat, id: string): set<nat>
    requires k <= |order|
  {
    set m: nat | m < k && order[m].session.candidate == id :: order[m].pos
  }

  lemma VisitedBeforeIsPredecessors(s: seq<Session>, order: seq<Tagged>, k: nat)
    requires Visits(order, s) && k < |order|
    ensures Visited(order, k, order[k].session.candidate) == Predecessors(s, order[k].pos)
  {
    var p, id := order[k].pos, order[k].session.candidate;
    forall j: nat | j in Predecessors(s, p) ensures j in Visited(order, k, id) {
      assert Tagged(j, s[j]) in order;
      var m :| 0 <= m < |order| && order[m] == Tagged(j, s[j]);
      assert m <= k || TaggedBefore(order[k], order[m]);
    }
    forall j: nat | j in Visited(order, k, id) ensures j in Predecessors(s, p) {
      var m: nat :| m < k && order[m].session.candidate == id && order[m].pos == j;
      assert TaggedBefore(order[m], order[k]);
    }
  }

  lemma VisitedStep(s: seq<Session>, order: seq<Tagged>, k: nat, id: string)
    requires Visits(order, s) && k < |order|
    ensures |Visited(order, k + 1, id)| == |Visited(order, k, id)| + if order[k].session.candidate == id then 1 else 0
  {
    if order[k].session.candidate == id {
      assert Visited(order, k + 1, id) == Visited(order, k, id) + {order[k].pos};
      assert order[k].pos !in Visited(order, k, id);
    } else {
      assert Visited(order, k + 1, id) == Visited(order, k, id);
    }
  }

  function Counter(m: map<string, nat>, key: string): nat { if key in m then m[key] else 0 }

  /** The number a candidate's next session gets once `k` are visited, less one. */
  function Reached(order: seq<Tagged>, k: nat, id: string): nat
    requires k <= |order|
  {
    if k == 0 then 0
    else Reached(order, k - 1, id) + if order[k - 1].session.candidate == id then 1 else 0
  }

  lemma {:induction false} ReachedIsVisited(s: seq<Session>, order: seq<Tagged>, k: nat, id: string)
    requires Visits(order, s) && k <= |order|
    ensures Reached(order, k, id) == |Visited(order, k, id)|
  {
    if k == 0 {
      assert Visited(order, 0, id) == {};
    } else {
      ReachedIsVisited(s, order, k - 1, id);
      VisitedStep(s, order, k - 1, id);
    }
  }

  lemma RenumberedAt(s: seq<Session>, order: seq<Tagged>, k: nat)
    requires Visits(order, s) && k < |order|
    ensures var p, id := order[k].pos, order[k].session.candidate;
            Renumbered(s)[p] == s[p].(number := Reached(order, k, id) + 1, total := Held(s, id))
  {
    VisitedBeforeIsPredecessors(s, order, k);
    ReachedIsVisited(s, order, k, order[k].session.candidate);
  }

  method CandidateTotals(a: array<Session>) returns (totals: map<string, nat>)
    ensures forall id :: Counter(totals, id) == Held(a[..], id)
  {
    totals := map[];
    for i := 0 to a.Length
      invariant forall id :: Counter(totals, id) == Held(a[..i], id)
    {
      assert a[..i + 1][..i] == a[..i];
      totals := totals[a[i].candidate := Counter(totals, a[i].candidate) + 1];
    }
    assert a[..a.Length] == a[..];
  }

  /** The list after `k` visited sessions have been written back. */
  function Written(order: seq<Tagged>, s: seq<Session>, k: nat): (out: seq<Session>)
    requires k <= |order| && forall m | 0 <= m < |order| :: order[m].pos < |s|
    ensures |out| == |s|
  {
    if k == 0 then s
    else
      var p, id := order[k - 1].pos, order[k - 1].session.candidate;
      var out := Written(order, s, k - 1);
      out[p := out[p].(number := Reached(order, k - 1, id) + 1, total := Held(s, id))]
  }

  /** The session visited at step `m` is rewritten at that step and at no other. */
  lemma {:induction false} WrittenAt(order: seq<Tagged>, s: seq<Session>, k: nat, m: nat)
    requires k <= |order| && m < |order|
    requires forall i | 0 <= i < |order| :: order[i].pos < |s|
    requires forall i | 0 <= i < |order| && i != m :: order[i].pos != order[m].pos
    ensures var p, id := order[m].pos, order[m].session.candidate;
            Written(order, s, k)[p] ==
            if m < k then s[p].(number := Reached(order, m, id) + 1, total := Held(s, id)) else s[p]
  {
    if k > 0 { WrittenAt(order, s, k - 1, m); }
  }

  lemma WrittenIsRenumbered(order: seq<Tagged>, s: seq<Session>)
    requires Visits(order, s)
    ensures Written(order, s, |order|) == Renumbered(s)
  {
    forall p | 0 <= p < |s| ensures Written(order, s, |order|)[p] == Renumbered(s)[p] {
      assert Tagged(p, s[p]) in order;
      var m :| 0 <= m < |order| && order[m] == Tagged(p, s[p]);
      WrittenAt(order, s, |order|, m);
      RenumberedAt(s, order, m);
    }
  }

  method WriteNumbers(a: array<Session>, order: seq<Tagged>, totals: map<string, nat>)
    requires forall m | 0 <= m < |order| :: order[m].pos < a.Length
    requires forall id :: Counter(totals, id) == Held(a[..], id)
    modifies a
    ensures a[..] == Written(order, old(a[..]), |order|)
  {
    ghost var s := a[..];
    var position: map<string, nat> := map[];
    for k := 0 to |order|
      invariant forall id :: Counter(position, id) == Reached(order, k, id)
      invariant a[..] == Written(order, s, k)
    {
      var p, id := order[k].pos, order[k].session.candidate;
      position := position[id := Counter(position, id) + 1];
      a[p] := a[p].(number := position[id], total := Counter(totals, id));
    }
  }

  method Renumber(a: array<Session>)
    modifies a
    ensures a[..] == Renumbered(old(a[..]))
  {
    var totals := CandidateTotals(a);
    var order := Schedule(a[..]);
    ScheduleVisits(a[..]);
    WrittenIsRenumbered(order, a[..]);
    WriteNumbers(a, order, totals);
  }

  // ---- What the numbers mean ----

  ghost function PositionsOf(s: seq<Session>, id: string): set<nat> {
    set i: nat | i < |s| && s[i].candidate == id
  }

  lemma {:induction false} HeldIsPositions(s: seq<Session>, id: string)
    ensures Held(s, id) == |PositionsOf(s, id)|
  {
    if |s| == 0 {
      assert PositionsOf(s, id) == {};
    } else {
      var n: nat := |s| - 1;
      HeldIsPositions(s[..n], id);
      if s[n].candidate == id {
        assert PositionsOf(s, id) == PositionsOf(s[..n], id) + {n};
      } else {
        assert PositionsOf(s, id) == PositionsOf(s[..n], id);
      }
    }
  }

  lemma {:induction false} SubsetSize<T>(a: set<T>, b: set<T>)
    requires a <= b
    ensures |a| <= |b| && (|a| == |b| ==> a == b)
  {
    assert b == a + (b - a);
  }

  /** Earlier sessions of a candidate have smaller ranks; a rank never exceeds the candidate's count. */
  lemma RankIncreases(s: seq<Session>, j: nat, i: nat)
    requires j < |s| && i < |s| && s[j].candidate == s[i].candidate && Before(s, j, i)
    ensures Rank(s, j) < Rank(s, i)
  {
    assert j !in Predecessors(s, j);
    SubsetSize(Predecessors(s, j) + {j}, Predecessors(s, i));
  }

  lemma RankInRange(s: seq<Session>, i: nat)
    requires i < |s|
    ensures 1 <= Rank(s, i) <= Held(s, s[i].candidate)
  {
    HeldIsPositions(s, s[i].candidate);
    SubsetSize(Predecessors(s, i) + {i}, PositionsOf(s, s[i].candidate));
  }

  ghost function RanksOf(s: seq<Session>, at: set<nat>): set<nat>
    requires forall i | i in at :: i < |s|
  {
    set i | i in at :: Rank(s, i)
  }

  lemma RanksDiffer(s: seq<Session>, id: string, i: nat, j: nat)
    requires i in PositionsOf(s, id) && j in PositionsOf(s, id) && i != j
    ensures Rank(s, i) != Rank(s, j)
  {
    if Before(s, i, j) { RankIncreases(s, i, j); } else { RankIncreases(s, j, i); }
  }

  lemma {:induction false} RanksOfSize(s: seq<Session>, at: set<nat>, id: string)
    requires at <= PositionsOf(s, id)
    ensures |RanksOf(s, at)| == |at|
    decreases at
  {
    if at == {} {
      assert RanksOf(s, at) == {};
    } else {
      var i :| i in at;
      RanksOfSize(s, at - {i}, id);
      assert RanksOf(s, at) == RanksOf(s, at - {i}) + {Rank(s, i)};
      forall j | j in at - {i} ensures Rank(s, j) != Rank(s, i) { RanksDiffer(s, id, i, j); }
    }
  }

  ghost function UpTo(n: nat): set<nat> { if n == 0 then {} else UpTo(n - 1) + {n} }

  lemma {:induction false} UpToHolds(n: nat)
    ensures |UpTo(n)| == n && forall k :: k in UpTo(n) <==> 1 <= k <= n
  {
    if n > 0 { UpToHolds(n - 1); }
  }

  lemma RanksCoverAll(s: seq<Session>, id: string)
    ensures RanksOf(s, PositionsOf(s, id)) == UpTo(Held(s, id))
  {
    var at := PositionsOf(s, id);
    RanksOfSize(s, at, id);
    HeldIsPositions(s, id);
    UpToHolds(Held(s, id));
    forall r | r in RanksOf(s, at) ensures r in UpTo(Held(s, id)) {
      var i :| i in at && r == Rank(s, i);
      RankInRange(s, i);
    }
    SubsetSize(RanksOf(s, at), UpTo(Held(s, id)));
  }

  predicate HasNumber(r: seq<Session>, id: string, n: int) {
    exists i :: 0 <= i < |r| && r[i].candidate == id && r[i].number == n
  }

  /** Renumbering leaves candidates, days and focus alone; numbers lie in 1..n of n. */
  lemma RenumberedKeepsPlaces(s: seq<Session>, i: nat)
    requires i < |s|
    ensures var r := Renumbered(s);
            |r| == |s| && r[i] == s[i].(number := r[i].number, total := Held(s, s[i].candidate)) &&
            1 <= r[i].number <= r[i].total
  {
    RankInRange(s, i);
  }

  /** Within a candidate the numbers follow the dates and never repeat. */
  lemma RenumberedInDateOrder(s: seq<Session>, i: nat, j: nat)
    requires i < |s| && j < |s| && i != j && s[i].candidate == s[j].candidate
    ensures Renumbered(s)[i].number != Renumbered(s)[j].number
    ensures s[i].day < s[j].day ==> Renumbered(s)[i].number < Renumbered(s)[j].number
    ensures Renumbered(s)[i].number < Renumbered(s)[j].number ==> s[i].day <= s[j].day
  {
    if Before(s, i, j) { RankIncreases(s, i, j); } else { RankIncreases(s, j, i); }
  }

  /** Every number from 1 to the candidate's count is used, and no other. */
  lemma RenumberedUsesEveryNumber(s: seq<Session>, id: string, n: int)
    ensures HasNumber(Renumbered(s), id, n) <==> 1 <= n <= Held(s, id)
  {
    var r := Renumbered(s);
    UpToHolds(Held(s, id));
    if 1 <= n <= Held(s, id) {
      RanksCoverAll(s, id);
      assert n in RanksOf(s, PositionsOf(s, id));
      var i :| i in PositionsOf(s, id) && n == Rank(s, i);
      assert r[i].candidate == id;
    }
    if HasNumber(r, id, n) {
      var i :| 0 <= i < |r| && r[i].candidate == id && r[i].number == n;
      RankInRange(s, i);
    }
  }

  lemma {:induction false} RenumberedKeepsCounts(s: seq<Session>, t: seq<Session>, id: string, day: int)
    requires |s| == |t| && forall i | 0 <= i < |s| :: s[i].candidate == t[i].candidate && s[i].day == t[i].day
    ensures Held(s, id) == Held(t, id) && On(Tally(s), day) == On(Tally(t), day)
  {
    if |s| > 0 { RenumberedKeepsCounts(s[..|s| - 1], t[..|t| - 1], id, day); }
  }
}
