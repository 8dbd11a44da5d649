/** The two passes that complete a validated design, and the guarantees of the whole pipeline. */
module Completion {
  import opened Prelude
  import opened Text
  import opened OpenDay
  import opened Sessions
  import opened Validator
  import opened RuleScheduler

  // ---- Top-up: sessions declared but not placed ----

  /** Placed sessions read back as proposals. */
  function AsProposals(s: seq<Session>): seq<Proposal> {
    seq(|s|, i requires 0 <= i < |s| =>
      Proposal(s[i].candidate, "", Some(s[i].day), s[i].number, s[i].total, s[i].focus))
  }

  /** The distinct candidate ids of the sessions, in order of first appearance. */
  function Names(s: seq<Session>): seq<string> {
    if |s| == 0 then []
    else
      var front, id := Names(s[..|s| - 1]), s[|s| - 1].candidate;
      if id in front then front else front + [id]
  }

  predicate NameBefore(a: string, b: string) { StrLe(a, b) }

  /** The last day a candidate occupies, or `start` when it holds none. */
  function Latest(s: seq<Session>, id: string, start: int): int {
    if Held(s, id) == 0 then start
    else
      var x, front := s[|s| - 1], s[..|s| - 1];
      if x.candidate != id then Latest(front, id, start)
      else if Held(front, id) == 0 then x.day else Max(Latest(front, id, start), x.day)
  }

  /** The day after the candidate's last session, unless that would run past the finish date. */
  function Preferred(out: seq<Session>, id: string, w: Window): int {
    var day := Max(Latest(out, id, w.start) + 1, w.start);
    if w.end.Some? && day > w.end.value then w.start else day
  }

  function Extend(out: seq<Session>, id: string, deadline: Option<int>, wanted: int, n: nat, w: Window): seq<Session> {
    if n == 0 then out
    else
      var prev := Extend(out, id, deadline, wanted, n - 1, w);
      prev + [Session(id, Place(prev, w, Preferred(prev, id, w), deadline), 0, wanted, "")]
  }

  function Lacking(sessions: seq<Session>, id: string): nat {
    Max(0, Depth(AsProposals(sessions), id) - Held(sessions, id))
  }

  /** The candidate `id` extended to its declared depth, if it is known. */
  function TopUpOne(prev: seq<Session>, id: string, sessions: seq<Session>, byId: map<string, Candidate>,
                    w: Window): seq<Session>
  {
    if id in byId
    then Extend(prev, id, byId[id].deadline, Depth(AsProposals(sessions), id), Lacking(sessions, id), w)
    else prev
  }

  function TopUpAll(ids: seq<string>, sessions: seq<Session>, byId: map<string, Candidate>, w: Window): seq<Session> {
    if |ids| == 0 then sessions
    else
      TopUpOne(TopUpAll(ids[..|ids| - 1], sessions, byId, w), ids[|ids| - 1], sessions, byId, w)
  }

  function ToppedUp(sessions: seq<Session>, candidates: seq<Candidate>, w: Window): seq<Session> {
    TopUpAll(SortBy(NameBefore, Names(sessions)), sessions, ById(candidates), w)
  }

  /** The counters both passes rebuild from the sessions they are given. */
  method TallySessions(sessions: seq<Session>) returns (names: seq<string>, counts: map<string, int>, load: Load)
    ensures names == Names(sessions) && load == Tally(sessions)
    ensures forall id :: Get(counts, id) == Held(sessions, id)
  {
    names, counts, load := [], map[], map[];
    for i := 0 to |sessions|
      invariant names == Names(sessions[..i]) && load == Tally(sessions[..i])
      invariant forall id :: Get(counts, id) == Held(sessions[..i], id)
    {
      var session := sessions[i];
      assert sessions[..i + 1][..i] == sessions[..i];
      if session.candidate !in names { names := names + [session.candidate]; }
      counts := counts[session.candidate := Get(counts, session.candidate) + 1];
      load := Bump(load, session.day);
    }
    assert sessions[..|sessions|] == sessions;
  }

  /** Adds `lacking` sessions of one candidate, each after the candidate's last. */
  method PlaceLacking(before: seq<Session>, tally: Load, id: string, deadline: Option<int>, wanted: int,
                      lacking: nat, w: Window) returns (result: seq<Session>, load: Load)
    requires tally == Tally(before)
    ensures result == Extend(before, id, deadline, wanted, lacking, w) && load == Tally(result)
    ensures |result| == |before| + lacking
  {
    result, load := before, tally;
    for n := 0 to lacking
      invariant result == Extend(before, id, deadline, wanted, n, w) && load == Tally(result)
      invariant |result| == |before| + n
    {
      var preferred := Preferred(result, id, w);
      var day := NextOpenDay(load, preferred, deadline, w.end, w.capacity);
      load := Bump(load, day);
      var session := Session(id, day, 0, wanted, "");
      Snoc(result, session);
      result := result + [session];
    }
  }

  method TopUp(sessions: seq<Session>, candidates: seq<Candidate>, w: Window) returns (result: seq<Session>, added: nat)
    ensures result == ToppedUp(sessions, candidates, w)
    ensures |result| == |sessions| + added
  {
    var byId := ById(candidates);
    var declared := DeclaredDepth(AsProposals(sessions), byId.Keys);
    var names, counts, load := TallySessions(sessions);
    var ids := SortBy(NameBefore, names);
    result, added := sessions, 0;
    for i := 0 to |ids|
      invariant result == TopUpAll(ids[..i], sessions, byId, w) && load == Tally(result)
      invariant |result| == |sessions| + added
    {
      var id := ids[i];
      TopUpAllStep(ids, sessions, byId, w, i);
      if id in byId {
        NamesAreDeclared(sessions, i);
        assert declared[id] == Depth(AsProposals(sessions), id);
        var lacking := Max(0, declared[id] - Get(counts, id));
        assert lacking == Lacking(sessions, id);
        result, load := PlaceLacking(result, load, id, byId[id].deadline, declared[id], lacking, w);
        added := added + lacking;
      }
    }
    assert ids[..|ids|] == ids;
  }

  lemma TopUpAllStep(ids: seq<string>, sessions: seq<Session>, byId: map<string, Candidate>, w: Window, i: nat)
    requires i < |ids|
    ensures TopUpAll(ids[..i + 1], sessions, byId, w) ==
            TopUpOne(TopUpAll(ids[..i], sessions, byId, w), ids[i], sessions, byId, w)
  {
    assert ids[..i + 1][..i] == ids[..i];
  }

  lemma {:induction false} ProposedIsHeld(s: seq<Session>, id: string)
    ensures Proposed(AsProposals(s), id) == Held(s, id)
  {
    if |s| == 0 {
    } else {
      var n := |s| - 1;
      ProposedIsHeld(s[..n], id);
      var x := AsProposals(s)[n];
      assert AsProposals(s) == AsProposals(s[..n]) + [x];
      CountSnoc((p: Proposal) => p.candidate == id, AsProposals(s[..n]), x);
    }
  }

  lemma {:induction false} NamesHold(s: seq<Session>)
    ensures forall id :: id in Names(s) <==> Held(s, id) > 0
    ensures forall id :: multiset(Names(s))[id] <= 1
  {
    if |s| == 0 {
    } else {
      NamesHold(s[..|s| - 1]);
      var front, id := Names(s[..|s| - 1]), s[|s| - 1].candidate;
      if id !in front { assert multiset(front)[id] == 0; }
    }
  }

  lemma SortedNamesHold(s: seq<Session>)
    ensures forall id :: id in SortBy(NameBefore, Names(s)) <==> Held(s, id) > 0
    ensures forall id :: multiset(SortBy(NameBefore, Names(s)))[id] <= 1
  {
    NamesHold(s);
    SortPermutes(NameBefore, Names(s));
    var ids := SortBy(NameBefore, Names(s));
    forall id ensures id in ids <==> id in Names(s) {
      assert id in ids <==> id in multiset(ids);
      assert id in Names(s) <==> id in multiset(Names(s));
    }
  }

  lemma NamesAreDeclared(s: seq<Session>, i: nat)
    requires i < |SortBy(NameBefore, Names(s))|
    ensures Proposed(AsProposals(s), SortBy(NameBefore, Names(s))[i]) > 0
  {
    SortedNamesHold(s);
    var id := SortBy(NameBefore, Names(s))[i];
    assert id in SortBy(NameBefore, Names(s));
    ProposedIsHeld(s, id);
  }

  lemma {:induction false} ExtendGrows(out: seq<Session>, id: string, deadline: Option<int>, wanted: int, n: nat,
                                       w: Window)
    ensures Grows(out, Extend(out, id, deadline, wanted, n, w), w)
  {
    if n == 0 {
    } else {
      ExtendGrows(out, id, deadline, wanted, n - 1, w);
      var prev := Extend(out, id, deadline, wanted, n - 1, w);
      var day := Place(prev, w, Preferred(prev, id, w), deadline);
      PlaceIsPlaceable(prev, w, Preferred(prev, id, w), deadline);
      GrowsBy(out, prev, Session(id, day, 0, wanted, ""), w);
    }
  }

  lemma {:induction false} ExtendHeld(out: seq<Session>, id: string, deadline: Option<int>, wanted: int, n: nat,
                                      w: Window)
    ensures forall x :: Held(Extend(out, id, deadline, wanted, n, w), x) == Held(out, x) + if x == id then n else 0
  {
    if n == 0 {
    } else {
      ExtendHeld(out, id, deadline, wanted, n - 1, w);
      var prev := Extend(out, id, deadline, wanted, n - 1, w);
      Snoc(prev, Session(id, Place(prev, w, Preferred(prev, id, w), deadline), 0, wanted, ""));
    }
  }

  lemma TopUpOneGrows(prev: seq<Session>, id: string, sessions: seq<Session>, byId: map<string, Candidate>, w: Window)
    ensures var out := TopUpOne(prev, id, sessions, byId, w);
            Grows(prev, out, w) &&
            forall x :: Held(out, x) == Held(prev, x) + if x == id && id in byId then Lacking(sessions, id) else 0
  {
    if id in byId {
      var wanted := Depth(AsProposals(sessions), id);
      ExtendGrows(prev, id, byId[id].deadline, wanted, Lacking(sessions, id), w);
      ExtendHeld(prev, id, byId[id].deadline, wanted, Lacking(sessions, id), w);
    }
  }

  lemma OnceInFront(ids: seq<string>)
    requires |ids| > 0 && forall id :: multiset(ids)[id] <= 1
    ensures var n := |ids| - 1; ids[n] !in ids[..n] && forall id :: multiset(ids[..n])[id] <= 1
  {
    var n := |ids| - 1;
    assert ids == ids[..n] + [ids[n]];
    assert multiset(ids) == multiset(ids[..n]) + multiset{ids[n]};
    forall x ensures multiset(ids[..n])[x] <= 1 { assert multiset(ids)[x] <= 1; }
    assert multiset(ids)[ids[n]] <= 1;
    assert multiset(ids[..n])[ids[n]] == 0;
  }

  lemma {:induction false} TopUpAllGrows(ids: seq<string>, sessions: seq<Session>, byId: map<string, Candidate>,
                                         w: Window)
    requires forall id :: multiset(ids)[id] <= 1
    ensures var out := TopUpAll(ids, sessions, byId, w);
            Grows(sessions, out, w) &&
            forall x :: Held(out, x) == Held(sessions, x) + if x in ids && x in byId then Lacking(sessions, x) else 0
  {
    if |ids| == 0 {
    } else {
      var n := |ids| - 1;
      var prev := TopUpAll(ids[..n], sessions, byId, w);
      OnceInFront(ids);
      TopUpAllGrows(ids[..n], sessions, byId, w);
      TopUpOneGrows(prev, ids[n], sessions, byId, w);
      GrowsTransitive(sessions, prev, TopUpAll(ids, sessions, byId, w), w);
      assert ids == ids[..n] + [ids[n]];
    }
  }

  /** Top-up keeps every session where it is and brings each named candidate up to its declared depth. */
  lemma TopUpReachesDepth(sessions: seq<Session>, candidates: seq<Candidate>, w: Window)
    ensures var out := ToppedUp(sessions, candidates, w);
            Grows(sessions, out, w) &&
            forall id :: Held(out, id) ==
                         if id in ById(candidates) && Held(sessions, id) > 0
                         then Max(Held(sessions, id), Depth(AsProposals(sessions), id)) else Held(sessions, id)
  {
    SortedNamesHold(sessions);
    var ids := SortBy(NameBefore, Names(sessions));
    assert forall id :: multiset(ids)[id] <= 1;
    TopUpAllGrows(ids, sessions, ById(candidates), w);
  }

  // ---- Backfill: candidates the design left out ----

  predicate BackfillBefore(a: Candidate, b: Candidate) {
    a.priority > b.priority || (a.priority == b.priority && StrLe(Fold(a.title), Fold(b.title)))
  }

  function Missing(sessions: seq<Session>, candidates: seq<Candidate>): seq<Candidate> {
    if |candidates| == 0 then []
    else
      var rest := Missing(sessions, candidates[1..]);
      if Held(sessions, candidates[0].id) == 0 then [candidates[0]] + rest else rest
  }

  /** `out` followed by the first `k` sessions of a candidate's own plan, each moved to an open day. */
  function Refit(out: seq<Session>, plan: seq<Session>, deadline: Option<int>, k: nat, w: Window): seq<Session>
    requires k <= |plan|
  {
    if k == 0 then out
    else
      var prev, x := Refit(out, plan, deadline, k - 1, w), plan[k - 1];
      prev + [x.(day := Place(prev, w, x.day, deadline))]
  }

  function BackfillAll(ordered: seq<Candidate>, sessions: seq<Session>, w: Window): seq<Session> {
    if |ordered| == 0 then sessions
    else
      var c := ordered[|ordered| - 1];
      var plan := Rule([c], w);
      Refit(BackfillAll(ordered[..|ordered| - 1], sessions, w), plan, c.deadline, |plan|, w)
  }

  function Backfilled(sessions: seq<Session>, candidates: seq<Candidate>, w: Window): seq<Session> {
    BackfillAll(SortBy(BackfillBefore, Missing(sessions, candidates)), sessions, w)
  }

  method Backfill(sessions: seq<Session>, candidates: seq<Candidate>, w: Window)
    returns (result: seq<Session>, added: nat)
    ensures result == Backfilled(sessions, candidates, w) && added == |Missing(sessions, candidates)|
  {
    var missing := Missing(sessions, candidates);
    result, added := sessions, |missing|;
    if added == 0 { return; }
    var names, counts, load := TallySessions(result);
    var ordered := SortBy(BackfillBefore, missing);
    for i := 0 to |ordered|
      invariant result == BackfillAll(ordered[..i], sessions, w) && load == Tally(result)
    {
      assert ordered[..i + 1][..i] == ordered[..i];
      var plan := RuleSchedule([ordered[i]], w);
      ghost var before := result;
      for k := 0 to |plan|
        invariant result == Refit(before, plan, ordered[i].deadline, k, w) && load == Tally(result)
      {
        var day := NextOpenDay(load, plan[k].day, ordered[i].deadline, w.end, w.capacity);
        load := Bump(load, day);
        Snoc(result, plan[k].(day := day));
        result := result + [plan[k].(day := day)];
      }
    }
    assert ordered[..|ordered|] == ordered;
  }

  lemma {:induction false} RefitGrows(out: seq<Session>, plan: seq<Session>, deadline: Option<int>, k: nat, w: Window)
    requires k <= |plan|
    ensures Grows(out, Refit(out, plan, deadline, k, w), w)
  {
    if k == 0 {
    } else {
      RefitGrows(out, plan, deadline, k - 1, w);
      var prev, x := Refit(out, plan, deadline, k - 1, w), plan[k - 1];
      PlaceIsPlaceable(prev, w, x.day, deadline);
      GrowsBy(out, prev, x.(day := Place(prev, w, x.day, deadline)), w);
    }
  }

  lemma HeldSnoc(placed: seq<Session>, x: Session, id: string)
    ensures Held(placed + [x], id) == Held(placed, id) + if x.candidate == id then 1 else 0
  {
    Snoc(placed, x);
  }

  lemma {:induction false} RefitHeld(out: seq<Session>, plan: seq<Session>, deadline: Option<int>, k: nat, w: Window,
                                     id: string)
    requires k <= |plan|
    ensures Held(Refit(out, plan, deadline, k, w), id) == Held(out, id) + Held(plan[..k], id)
  {
    if k == 0 {
    } else {
      RefitHeld(out, plan, deadline, k - 1, w, id);
      var prev, x := Refit(out, plan, deadline, k - 1, w), plan[k - 1];
      HeldSnoc(prev, x.(day := Place(prev, w, x.day, deadline)), id);
      HeldSnoc(plan[..k - 1], x, id);
      assert plan[..k] == plan[..k - 1] + [x];
    }
  }

  lemma {:induction false} BackfillAllGrows(ordered: seq<Candidate>, sessions: seq<Session>, w: Window)
    ensures Grows(sessions, BackfillAll(ordered, sessions, w), w)
  {
    if |ordered| == 0 {
    } else {
      var n := |ordered| - 1;
      var c, prev := ordered[n], BackfillAll(ordered[..n], sessions, w);
      BackfillAllGrows(ordered[..n], sessions, w);
      var plan := Rule([c], w);
      RefitGrows(prev, plan, c.deadline, |plan|, w);
      GrowsTransitive(sessions, prev, BackfillAll(ordered, sessions, w), w);
    }
  }

  /** Refitting one candidate's own rule schedule adds its full effort. */
  lemma RefitRuleHeld(prev: seq<Session>, c: Candidate, w: Window, id: string)
    ensures var plan := Rule([c], w);
            Held(Refit(prev, plan, c.deadline, |plan|, w), id) == Held(prev, id) + if c.id == id then Total(c) else 0
  {
    var plan := Rule([c], w);
    RuleAccountsForAll([c], w);
    RefitHeld(prev, plan, c.deadline, |plan|, w, id);
    assert plan[..|plan|] == plan;
    OwedAppend([], c, id);
    assert [] + [c] == [c];
  }

  lemma BackfillStepHeld(ordered: seq<Candidate>, sessions: seq<Session>, w: Window, id: string)
    requires |ordered| > 0
    ensures var n := |ordered| - 1;
            Held(BackfillAll(ordered, sessions, w), id) ==
            Held(BackfillAll(ordered[..n], sessions, w), id) + if ordered[n].id == id then Total(ordered[n]) else 0
  {
    var n := |ordered| - 1;
    RefitRuleHeld(BackfillAll(ordered[..n], sessions, w), ordered[n], w, id);
  }

  lemma {:induction false} BackfillAllHeld(ordered: seq<Candidate>, sessions: seq<Session>, w: Window, id: string)
    ensures Held(BackfillAll(ordered, sessions, w), id) == Held(sessions, id) + Owed(ordered, id)
  {
    if |ordered| == 0 {
    } else {
      var n := |ordered| - 1;
      var c := ordered[n];
      BackfillAllHeld(ordered[..n], sessions, w, id);
      BackfillStepHeld(ordered, sessions, w, id);
      OwedAppend(ordered[..n], c, id);
      assert ordered == ordered[..n] + [c];
    }
  }

  lemma {:induction false} OwedMissing(sessions: seq<Session>, candidates: seq<Candidate>, id: string)
    ensures Owed(Missing(sessions, candidates), id) == if Held(sessions, id) == 0 then Owed(candidates, id) else 0
  {
    if |candidates| == 0 {
    } else {
      OwedMissing(sessions, candidates[1..], id);
      var rest := Missing(sessions, candidates[1..]);
      assert ([candidates[0]] + rest)[1..] == rest;
    }
  }

  /** Backfill keeps every session where it is and gives each absent candidate its full effort. */
  lemma BackfillCoversMissing(sessions: seq<Session>, candidates: seq<Candidate>, w: Window)
    ensures var out := Backfilled(sessions, candidates, w);
            Grows(sessions, out, w) &&
            forall id :: Held(out, id) == if Held(sessions, id) > 0 then Held(sessions, id) else Owed(candidates, id)
  {
    var missing := Missing(sessions, candidates);
    BackfillAllGrows(SortBy(BackfillBefore, missing), sessions, w);
    forall id ensures Owed(SortBy(BackfillBefore, missing), id) ==
                      if Held(sessions, id) == 0 then Owed(candidates, id) else 0
    {
      OwedSort(BackfillBefore, missing, id);
      OwedMissing(sessions, candidates, id);
    }
    forall id ensures Held(Backfilled(sessions, candidates, w), id) ==
                      if Held(sessions, id) > 0 then Held(sessions, id) else Owed(candidates, id)
    {
      BackfillAllHeld(SortBy(BackfillBefore, missing), sessions, w, id);
    }
  }

  // ---- The whole pipeline ----

  /** Every session of a plan: the completed design, or the rule schedule when nothing of the design survives. */
  function Designed(ps: seq<Proposal>, candidates: seq<Candidate>, w: Window): seq<Session> {
    var validated := Validate(ps, candidates, w);
    if |validated| > 0 then Backfilled(ToppedUp(validated, candidates, w), candidates, w) else Rule(candidates, w)
  }

  method DesignSessions(ps: seq<Proposal>, candidates: seq<Candidate>, w: Window)
    returns (sessions: seq<Session>, fromModel: bool)
    ensures sessions == Designed(ps, candidates, w)
    ensures fromModel <==> |Validate(ps, candidates, w)| > 0
  {
    var validated := ValidateSessions(ps, candidates, w);
    fromModel := |validated| > 0;
    if fromModel {
      var topped, toppedUp := TopUp(validated, candidates, w);
      var complete, backfilled := Backfill(topped, candidates, w);
      sessions := complete;
    } else {
      sessions := RuleSchedule(candidates, w);
    }
  }

  /** The daily limit, for any proposals and candidates: it holds for every plan of at most `SafeSessions` sessions. */
  lemma PlanWithinCapacity(ps: seq<Proposal>, candidates: seq<Candidate>, w: Window)
    requires |Designed(ps, candidates, w)| <= SafeSessions(w)
    ensures WithinCapacity(Designed(ps, candidates, w), w.capacity)
  {
    var v, out := Validate(ps, candidates, w), Designed(ps, candidates, w);
    if |v| > 0 {
      var t := ToppedUp(v, candidates, w);
      AdmittedAreSound(SortBy(ProposalBefore, ps), ById(candidates), ps, w);
      TopUpReachesDepth(v, candidates, w);
      BackfillCoversMissing(t, candidates, w);
      GrowsTransitive([], v, t, w);
      GrowsTransitive([], t, out, w);
    } else {
      RuleAccountsForAll(candidates, w);
    }
    GrowthStaysWithinCapacity(out, w);
  }

  /** No pass moves or drops a session it was given. */
  lemma PassesKeepSessions(ps: seq<Proposal>, candidates: seq<Candidate>, w: Window)
    requires |Validate(ps, candidates, w)| > 0
    ensures Validate(ps, candidates, w) <= ToppedUp(Validate(ps, candidates, w), candidates, w)
                                        <= Designed(ps, candidates, w)
  {
    TopUpReachesDepth(Validate(ps, candidates, w), candidates, w);
    BackfillCoversMissing(ToppedUp(Validate(ps, candidates, w), candidates, w), candidates, w);
  }

  lemma {:induction false} DepthOfSound(s: seq<Session>, id: string, d: nat)
    requires forall k | 0 <= k < |s| && s[k].candidate == id :: s[k].total == d
    ensures Stated(AsProposals(s), id) == if Held(s, id) > 0 then d else 0
  {
    if |s| == 0 {
    } else {
      var n := |s| - 1;
      DepthOfSound(s[..n], id, d);
      assert AsProposals(s)[..n] == AsProposals(s[..n]);
    }
  }

  /** A proposal the validator can use for this candidate. */
  ghost predicate Usable(ps: seq<Proposal>, id: string) {
    exists p | p in ps :: p.candidate == id && p.day.Some?
  }

  /** When the design survives, a candidate it usably names holds its declared depth and any other its full effort. */
  lemma CompletedHeld(ps: seq<Proposal>, candidates: seq<Candidate>, w: Window, id: string)
    requires |Validate(ps, candidates, w)| > 0
    ensures Held(Designed(ps, candidates, w), id) ==
            if Held(Validate(ps, candidates, w), id) > 0 then Depth(ps, id) else Owed(candidates, id)
  {
    var v := Validate(ps, candidates, w);
    AdmittedAreSound(SortBy(ProposalBefore, ps), ById(candidates), ps, w);
    assert Held(v, id) <= Depth(ps, id);
    TopUpReachesDepth(v, candidates, w);
    BackfillCoversMissing(ToppedUp(v, candidates, w), candidates, w);
    ProposedIsHeld(v, id);
    DepthOfSound(v, id, Depth(ps, id));
    HeldIsKnown(v, ById(candidates), id);
  }

  lemma {:induction false} HeldIsKnown(s: seq<Session>, byId: map<string, Candidate>, id: string)
    requires forall k | 0 <= k < |s| :: s[k].candidate in byId
    ensures Held(s, id) > 0 ==> id in byId
  {
    if |s| > 0 { HeldIsKnown(s[..|s| - 1], byId, id); }
  }

  lemma UnusableWhenNothingSurvives(ps: seq<Proposal>, candidates: seq<Candidate>, w: Window, id: string)
    requires |Validate(ps, candidates, w)| == 0
    ensures !(id in ById(candidates) && Usable(ps, id))
  {
    ValidatedIffProposed(ps, candidates, w, id);
  }

  lemma DesignedHeld(ps: seq<Proposal>, candidates: seq<Candidate>, w: Window, id: string)
    ensures Held(Designed(ps, candidates, w), id) ==
            if id in ById(candidates) && Usable(ps, id) then Depth(ps, id) else Owed(candidates, id)
  {
    if |Validate(ps, candidates, w)| > 0 {
      ValidatedIffProposed(ps, candidates, w, id);
      CompletedHeld(ps, candidates, w, id);
    } else {
      UnusableWhenNothingSurvives(ps, candidates, w, id);
      RuleAccountsForAll(candidates, w);
    }
  }

  /** Exact depth: the model's declared depth where a proposal is usable, the full effort everywhere else, nothing
      unknown. */
  lemma PlanDepthIsExact(ps: seq<Proposal>, candidates: seq<Candidate>, w: Window)
    requires DistinctIds(candidates)
    ensures forall c | c in candidates ::
              Held(Designed(ps, candidates, w), c.id) == if Usable(ps, c.id) then Depth(ps, c.id) else Total(c)
    ensures forall id | id !in ById(candidates) :: Held(Designed(ps, candidates, w), id) == 0
    ensures forall id :: 1 <= Depth(ps, id) <= 8
  {
    ByIdHolds(candidates);
    forall c | c in candidates
      ensures Held(Designed(ps, candidates, w), c.id) == if Usable(ps, c.id) then Depth(ps, c.id) else Total(c)
    {
      DesignedHeld(ps, candidates, w, c.id);
      OwedDistinct(candidates, c.id);
      var k :| 0 <= k < |candidates| && candidates[k] == c;
      assert candidates[k].id == c.id;
    }
    forall id | id !in ById(candidates) ensures Held(Designed(ps, candidates, w), id) == 0 {
      DesignedHeld(ps, candidates, w, id);
      OwedDistinct(candidates, id);
    }
  }

  // ---- The size of a plan, from its inputs ----

  /** Sessions the pipeline will place: declared depth where a proposal is usable, full effort elsewhere. */
  ghost function PlannedWork(ps: seq<Proposal>, candidates: seq<Candidate>): nat {
    if |candidates| == 0 then 0
    else
      var c := candidates[0];
      (if Usable(ps, c.id) then Depth(ps, c.id) else Total(c)) + PlannedWork(ps, candidates[1..])
  }

  function HeldByAll(candidates: seq<Candidate>, out: seq<Session>): nat {
    if |candidates| == 0 then 0 else Held(out, candidates[0].id) + HeldByAll(candidates[1..], out)
  }

  lemma {:induction false} HeldByAllSnoc(candidates: seq<Candidate>, out: seq<Session>, x: Session)
    requires DistinctIds(candidates)
    ensures HeldByAll(candidates, out + [x]) ==
            HeldByAll(candidates, out) + if x.candidate in ById(candidates) then 1 else 0
  {
    ByIdHolds(candidates);
    if |candidates| == 0 {
    } else {
      var rest := candidates[1..];
      HeldByAllSnoc(rest, out, x);
      Snoc(out, x);
      ByIdHolds(rest);
      assert x.candidate in ById(candidates) <==> x.candidate == candidates[0].id || x.candidate in ById(rest) by {
        if x.candidate in ById(rest) {
          var k :| 0 <= k < |rest| && rest[k].id == x.candidate;
          assert candidates[k + 1].id == x.candidate;
        }
        if x.candidate in ById(candidates) && x.candidate != candidates[0].id {
          var k :| 0 <= k < |candidates| && candidates[k].id == x.candidate;
          assert rest[k - 1].id == x.candidate;
        }
      }
    }
  }

  lemma {:induction false} HeldByAllIsSize(candidates: seq<Candidate>, out: seq<Session>)
    requires DistinctIds(candidates)
    requires forall id | id !in ById(candidates) :: Held(out, id) == 0
    ensures HeldByAll(candidates, out) == |out|
  {
    if |out| == 0 {
      NothingHeld(candidates);
    } else {
      var n := |out| - 1;
      assert out == out[..n] + [out[n]];
      Snoc(out[..n], out[n]);
      assert out[n].candidate in ById(candidates) by { assert Held(out, out[n].candidate) > 0; }
      forall id | id !in ById(candidates) ensures Held(out[..n], id) == 0 { assert Held(out, id) == 0; }
      HeldByAllIsSize(candidates, out[..n]);
      HeldByAllSnoc(candidates, out[..n], out[n]);
    }
  }

  lemma {:induction false} NothingHeld(candidates: seq<Candidate>)
    ensures HeldByAll(candidates, []) == 0
  {
    if |candidates| > 0 { NothingHeld(candidates[1..]); }
  }

  lemma {:induction false} HeldByAllIsWork(ps: seq<Proposal>, candidates: seq<Candidate>, out: seq<Session>)
    requires forall c | c in candidates :: Held(out, c.id) == if Usable(ps, c.id) then Depth(ps, c.id) else Total(c)
    ensures HeldByAll(candidates, out) == PlannedWork(ps, candidates)
  {
    if |candidates| == 0 {
    } else {
      assert candidates[0] in candidates;
      HeldByAllIsWork(ps, candidates[1..], out);
    }
  }

  /** The daily limit in terms of the request alone: at most `SafeSessions` sessions asked for, never more than
      capacity a day. */
  lemma PlannedWorkFits(ps: seq<Proposal>, candidates: seq<Candidate>, w: Window)
    requires DistinctIds(candidates)
    ensures |Designed(ps, candidates, w)| == PlannedWork(ps, candidates)
    ensures PlannedWork(ps, candidates) <= SafeSessions(w) ==> WithinCapacity(Designed(ps, candidates, w), w.capacity)
  {
    PlanDepthIsExact(ps, candidates, w);
    var out := Designed(ps, candidates, w);
    HeldByAllIsSize(candidates, out);
    HeldByAllIsWork(ps, candidates, out);
    if |out| <= SafeSessions(w) { PlanWithinCapacity(ps, candidates, w); }
  }
}
