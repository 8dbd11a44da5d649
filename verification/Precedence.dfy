/** Who comes first when days are short: the order in which each pass places its work, on the candidates' own fields. */
module Precedence {
  import opened Prelude
  import opened Text
  import opened OpenDay
  import opened Sessions
  import opened RuleScheduler
  import opened Validator
  import opened Completion

  // ---- Sessions in the order of their owners ----

  function IdsOf(candidates: seq<Candidate>): seq<string> {
    seq(|candidates|, i requires 0 <= i < |candidates| => candidates[i].id)
  }

  /** From position `base` on, session after session belongs to the id at `at`, and `at` never goes back. */
  ghost predicate InOrderOf(out: seq<Session>, base: nat, ids: seq<string>, at: seq<nat>) {
    |out| == base + |at| &&
    (forall i | 0 <= i < |at| :: at[i] < |ids| && out[base + i].candidate == ids[at[i]]) &&
    forall i, j | 0 <= i < j < |at| :: at[i] <= at[j]
  }

  /** One more owner, with all its sessions after those of the owners before it. */
  lemma OwnersGrow(prev: seq<Session>, out: seq<Session>, base: nat, ids: seq<string>, front: seq<nat>)
    returns (at: seq<nat>)
    requires |ids| > 0 && InOrderOf(prev, base, ids[..|ids| - 1], front) && prev <= out
    requires forall k | |prev| <= k < |out| :: out[k].candidate == ids[|ids| - 1]
    ensures InOrderOf(out, base, ids, at)
  {
    at := front + seq(|out| - |prev|, _ => |ids| - 1);
  }

  lemma {:induction false} SpreadOwners(placed: seq<Session>, c: Candidate, w: Window, k: nat)
    ensures placed <= Spread(placed, c, w, k)
    ensures forall j | |placed| <= j < |Spread(placed, c, w, k)| :: Spread(placed, c, w, k)[j].candidate == c.id
  {
    if k > 0 { SpreadOwners(placed, c, w, k - 1); }
  }

  lemma {:induction false} SpreadAllOwners(ordered: seq<Candidate>, w: Window) returns (at: seq<nat>)
    ensures InOrderOf(SpreadAll(ordered, w), 0, IdsOf(ordered), at)
  {
    if |ordered| == 0 {
      at := [];
    } else {
      var n := |ordered| - 1;
      var front := SpreadAllOwners(ordered[..n], w);
      SpreadOwners(SpreadAll(ordered[..n], w), ordered[n], w, Total(ordered[n]));
      assert IdsOf(ordered)[..n] == IdsOf(ordered[..n]);
      at := OwnersGrow(SpreadAll(ordered[..n], w), SpreadAll(ordered, w), 0, IdsOf(ordered), front);
    }
  }

  lemma {:induction false} RefitOwners(out: seq<Session>, plan: seq<Session>, deadline: Option<int>, k: nat, w: Window)
    requires k <= |plan|
    ensures out <= Refit(out, plan, deadline, k, w) && |Refit(out, plan, deadline, k, w)| == |out| + k
    ensures forall j | 0 <= j < k :: Refit(out, plan, deadline, k, w)[|out| + j].candidate == plan[j].candidate
  {
    if k > 0 { RefitOwners(out, plan, deadline, k - 1, w); }
  }

  /** A rule schedule for one candidate belongs to it. */
  lemma LoneOwner(c: Candidate, w: Window)
    ensures forall k | 0 <= k < |Rule([c], w)| :: Rule([c], w)[k].candidate == c.id
  {
    RuleLands([c], w);
    forall k | 0 <= k < |Rule([c], w)| ensures Rule([c], w)[k].candidate == c.id {
      assert LandsFirstOpen(Rule([c], w), k, [c], w);
    }
  }

  lemma {:induction false} BackfillOwners(ordered: seq<Candidate>, sessions: seq<Session>, w: Window)
    returns (at: seq<nat>)
    ensures InOrderOf(BackfillAll(ordered, sessions, w), |sessions|, IdsOf(ordered), at)
  {
    if |ordered| == 0 {
      at := [];
    } else {
      var n := |ordered| - 1;
      var front := BackfillOwners(ordered[..n], sessions, w);
      var prev, out := BackfillAll(ordered[..n], sessions, w), BackfillAll(ordered, sessions, w);
      var plan := Rule([ordered[n]], w);
      RefitOwners(prev, plan, ordered[n].deadline, |plan|, w);
      LoneOwner(ordered[n], w);
      assert IdsOf(ordered)[..n] == IdsOf(ordered[..n]);
      forall k | |prev| <= k < |out| ensures out[k].candidate == ordered[n].id {
        assert out[|prev| + (k - |prev|)].candidate == plan[k - |prev|].candidate;
      }
      at := OwnersGrow(prev, out, |sessions|, IdsOf(ordered), front);
    }
  }

  lemma {:induction false} ExtendOwners(out: seq<Session>, id: string, deadline: Option<int>, wanted: int, n: nat,
                                        w: Window)
    ensures out <= Extend(out, id, deadline, wanted, n, w)
    ensures forall k | |out| <= k < |Extend(out, id, deadline, wanted, n, w)| ::
              Extend(out, id, deadline, wanted, n, w)[k].candidate == id
  {
    if n > 0 { ExtendOwners(out, id, deadline, wanted, n - 1, w); }
  }

  lemma {:induction false} TopUpOwners(ids: seq<string>, sessions: seq<Session>, byId: map<string, Candidate>,
                                       w: Window) returns (at: seq<nat>)
    ensures InOrderOf(TopUpAll(ids, sessions, byId, w), |sessions|, ids, at)
  {
    if |ids| == 0 {
      at := [];
    } else {
      var n := |ids| - 1;
      var id, prev := ids[n], TopUpAll(ids[..n], sessions, byId, w);
      var front := TopUpOwners(ids[..n], sessions, byId, w);
      if id in byId {
        ExtendOwners(prev, id, byId[id].deadline, Depth(AsProposals(sessions), id), Lacking(sessions, id), w);
      }
      at := OwnersGrow(prev, TopUpAll(ids, sessions, byId, w), |sessions|, ids, front);
    }
  }

  ghost function IndexIn(candidates: seq<Candidate>, c: Candidate): (i: nat)
    requires c in candidates
    ensures i < |candidates| && candidates[i] == c
  {
    var i :| 0 <= i < |candidates| && candidates[i] == c; i
  }

  /** The candidate an ordered list holds under an id, when ids are distinct. */
  lemma OwnerIs(candidates: seq<Candidate>, ordered: seq<Candidate>, i: nat, c: Candidate)
    requires DistinctIds(candidates) && multiset(ordered) == multiset(candidates)
    requires i < |ordered| && c in candidates && c.id == ordered[i].id
    ensures ordered[i] == c
  {
    assert ordered[i] in multiset(ordered);
    assert ordered[i] in multiset(candidates);
    var p :| 0 <= p < |candidates| && candidates[p] == ordered[i];
    var q :| 0 <= q < |candidates| && candidates[q] == c;
  }

  /** Of two sessions placed in the order `le`, the owner of the earlier one comes first in it. */
  lemma OwnersOrdered(le: (Candidate, Candidate) -> bool, candidates: seq<Candidate>, out: seq<Session>, base: nat,
                      at: seq<nat>, a: Candidate, b: Candidate, j: nat, k: nat)
    requires TotalPreorder(le) && DistinctIds(candidates)
    requires InOrderOf(out, base, IdsOf(SortBy(le, candidates)), at)
    requires a in candidates && b in candidates && base <= j < k < |out|
    requires a.id == out[j].candidate && b.id == out[k].candidate
    ensures le(a, b)
  {
    var ordered := SortBy(le, candidates);
    SortPermutes(le, candidates);
    SortOrders(le, candidates);
    assert out[base + (j - base)].candidate == ordered[at[j - base]].id;
    assert out[base + (k - base)].candidate == ordered[at[k - base]].id;
    OwnerIs(candidates, ordered, at[j - base], a);
    OwnerIs(candidates, ordered, at[k - base], b);
    assert at[j - base] <= at[k - base];
  }

  // ---- The rule scheduler ----

  /** `a` is due no later than `b`; work without a deadline is due on the finish date, or on the latest date. */
  predicate DueNoLater(a: Candidate, b: Candidate, end: Option<int>) {
    var last := if end.Some? then end.value else MAX_DAY;
    match (a.deadline, b.deadline)
    case (Some(x), Some(y)) => x <= y
    case (Some(x), None) => x <= last
    case (None, Some(y)) => last <= y
    case (None, None) => true
  }

  /** Higher priority first; then the earlier date; then the folded title. */
  predicate ComesFirst(a: Candidate, b: Candidate, end: Option<int>) {
    a.priority >= b.priority &&
    (a.priority == b.priority ==>
       DueNoLater(a, b, end) && (DueNoLater(b, a, end) ==> StrLe(Fold(a.title), Fold(b.title))))
  }

  lemma RuleOrderTotal(end: Option<int>)
    ensures TotalPreorder((a, b) => RuleBefore(end, a, b))
  {
    forall a, b ensures RuleBefore(end, a, b) || RuleBefore(end, b, a) { StrLeTotal(Fold(a.title), Fold(b.title)); }
    forall a, b, c | RuleBefore(end, a, b) && RuleBefore(end, b, c) ensures RuleBefore(end, a, c) {
      if StrLe(Fold(a.title), Fold(b.title)) && StrLe(Fold(b.title), Fold(c.title)) {
        StrLeTransitive(Fold(a.title), Fold(b.title), Fold(c.title));
      }
    }
  }

  /** Of two sessions in a rule schedule, the owner of the earlier one has the higher priority, or the same and the
      earlier date, or the same date and the first title. */
  lemma RuleFollowsPriority(candidates: seq<Candidate>, w: Window, a: Candidate, b: Candidate, j: nat, k: nat)
    requires DistinctIds(candidates) && a in candidates && b in candidates && j < k < |Rule(candidates, w)|
    requires a.id == Rule(candidates, w)[j].candidate && b.id == Rule(candidates, w)[k].candidate
    ensures ComesFirst(a, b, w.end)
  {
    RuleOrderTotal(w.end);
    var at := SpreadAllOwners(RuleOrder(candidates, w), w);
    OwnersOrdered((x, y) => RuleBefore(w.end, x, y), candidates, Rule(candidates, w), 0, at, a, b, j, k);
  }

  /** Whoever fills a day that a session wanted and passed over comes before its owner. */
  lemma RuleYieldsToPriority(candidates: seq<Candidate>, w: Window, c: Candidate, k: nat, day: int)
    requires DistinctIds(candidates) && c in candidates && k < |Rule(candidates, w)|
    requires var x := Rule(candidates, w)[k];
             c.id == x.candidate && 1 <= x.number && Target(c, w, x.number - 1) <= day < x.day
    ensures var out := Rule(candidates, w);
            On(Tally(out[..k]), day) >= w.capacity &&
            forall j, a | 0 <= j < k && a in candidates && a.id == out[j].candidate && out[j].day == day ::
              ComesFirst(a, c, w.end)
  {
    var out := Rule(candidates, w);
    RuleLands(candidates, w);
    assert LandsFirstOpen(out, k, candidates, w);
    var owner :| owner in candidates && LandsFor(out, k, owner, w);
    OwnerIs(candidates, candidates, IndexIn(candidates, owner), c);
    assert !HasRoom(Tally(out[..k]), w.capacity, day);
    forall j, a | 0 <= j < k && a in candidates && a.id == out[j].candidate && out[j].day == day
      ensures ComesFirst(a, c, w.end)
    {
      RuleFollowsPriority(candidates, w, a, c, j, k);
    }
  }

  // ---- The completing passes ----

  lemma BackfillOrderTotal()
    ensures TotalPreorder(BackfillBefore)
  {
    forall a, b ensures BackfillBefore(a, b) || BackfillBefore(b, a) { StrLeTotal(Fold(a.title), Fold(b.title)); }
    forall a, b, c | BackfillBefore(a, b) && BackfillBefore(b, c) ensures BackfillBefore(a, c) {
      if StrLe(Fold(a.title), Fold(b.title)) && StrLe(Fold(b.title), Fold(c.title)) {
        StrLeTransitive(Fold(a.title), Fold(b.title), Fold(c.title));
      }
    }
  }

  lemma {:induction false} MissingHolds(sessions: seq<Session>, candidates: seq<Candidate>)
    ensures forall c :: c in Missing(sessions, candidates) <==> c in candidates && Held(sessions, c.id) == 0
    ensures DistinctIds(candidates) ==> DistinctIds(Missing(sessions, candidates))
  {
    if |candidates| > 0 {
      var c, rest := candidates[0], Missing(sessions, candidates[1..]);
      MissingHolds(sessions, candidates[1..]);
      assert candidates == [c] + candidates[1..];
      if DistinctIds(candidates) && Held(sessions, c.id) == 0 {
        forall x | x in rest ensures x.id != c.id {
          assert x in candidates[1..];
          var i :| 0 <= i < |candidates[1..]| && candidates[1..][i] == x;
          assert candidates[i + 1] == x;
        }
      }
    }
  }

  /** Backfilled candidates are served by priority, then by title. */
  lemma BackfillFollowsPriority(sessions: seq<Session>, candidates: seq<Candidate>, w: Window, a: Candidate,
                                b: Candidate, j: nat, k: nat)
    requires DistinctIds(candidates) && a in candidates && b in candidates
    requires |sessions| <= j < k < |Backfilled(sessions, candidates, w)|
    requires var out := Backfilled(sessions, candidates, w); a.id == out[j].candidate && b.id == out[k].candidate
    ensures a.priority >= b.priority && (a.priority == b.priority ==> StrLe(Fold(a.title), Fold(b.title)))
  {
    var missing := Missing(sessions, candidates);
    var ordered := SortBy(BackfillBefore, missing);
    BackfillOrderTotal();
    MissingHolds(sessions, candidates);
    var at := BackfillOwners(ordered, sessions, w);
    MissingOwner(sessions, candidates, ordered, at[j - |sessions|], a);
    MissingOwner(sessions, candidates, ordered, at[k - |sessions|], b);
    var out := Backfilled(sessions, candidates, w);
    assert out[|sessions| + (j - |sessions|)] == out[j] && out[|sessions| + (k - |sessions|)] == out[k];
    OwnersOrdered(BackfillBefore, missing, out, |sessions|, at, a, b, j, k);
  }

  /** A candidate whose id is served by backfill is one of the missing ones. */
  lemma MissingOwner(sessions: seq<Session>, candidates: seq<Candidate>, ordered: seq<Candidate>, i: nat, c: Candidate)
    requires DistinctIds(candidates) && c in candidates
    requires ordered == SortBy(BackfillBefore, Missing(sessions, candidates))
    requires i < |ordered| && ordered[i].id == c.id
    ensures c in Missing(sessions, candidates)
  {
    SortPermutes(BackfillBefore, Missing(sessions, candidates));
    MissingHolds(sessions, candidates);
    assert ordered[i] in multiset(ordered);
    assert ordered[i] in multiset(Missing(sessions, candidates));
  }

  lemma NameOrderTotal()
    ensures TotalPreorder(NameBefore)
  {
    forall a, b ensures NameBefore(a, b) || NameBefore(b, a) { StrLeTotal(a, b); }
    forall a, b, c | NameBefore(a, b) && NameBefore(b, c) ensures NameBefore(a, c) { StrLeTransitive(a, b, c); }
  }

  /** Top-up serves the candidates in the order of their ids. */
  lemma TopUpFollowsIds(sessions: seq<Session>, candidates: seq<Candidate>, w: Window, j: nat, k: nat)
    requires |sessions| <= j < k < |ToppedUp(sessions, candidates, w)|
    ensures var out := ToppedUp(sessions, candidates, w); StrLe(out[j].candidate, out[k].candidate)
  {
    var ids, out, base := SortBy(NameBefore, Names(sessions)), ToppedUp(sessions, candidates, w), |sessions|;
    NameOrderTotal();
    SortOrders(NameBefore, Names(sessions));
    var at := TopUpOwners(ids, sessions, ById(candidates), w);
    assert out[base + (j - base)] == out[j] && out[base + (k - base)] == out[k];
    assert out[j].candidate == ids[at[j - base]] && out[k].candidate == ids[at[k - base]];
    assert NameBefore(ids[at[j - base]], ids[at[j - base]]) || at[j - base] < at[k - base];
    assert NameBefore(ids[at[j - base]], ids[at[k - base]]);
  }
}
