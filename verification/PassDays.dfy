/** Where the completing passes put their sessions. */
module PassDays {
  import opened Prelude
  import opened Sessions
  import opened RuleScheduler
  import opened Validator
  import opened Admission
  import opened Completion
  import opened Precedence

  // ---- Top-up: after the candidate's own last session ----

  /** Session `l` is the candidate's last one before position `k`. */
  ghost predicate LastOfOwn(out: seq<Session>, k: nat, l: nat)
    requires k < |out|
  {
    l < k && out[l].candidate == out[k].candidate &&
    forall j | 0 <= j < k && out[j].candidate == out[k].candidate :: out[j].day <= out[l].day
  }

  /** Session `k` is on the first open day after its candidate's last one, or from the start of the window when that
      would begin past the finish date. */
  ghost predicate ExtendsOwnWork(out: seq<Session>, k: nat, w: Window)
    requires k < |out|
  {
    exists l | 0 <= l < k :: LastOfOwn(out, k, l) &&
      var next := Max(out[l].day + 1, w.start);
      OpensAt(out[..k], w, if w.end.Some? && next > w.end.value then w.start else next, out[k].day)
  }

  lemma {:induction false} LatestIsLast(s: seq<Session>, id: string, start: int) returns (l: nat)
    requires Held(s, id) > 0
    ensures l < |s| && s[l].candidate == id && s[l].day == Latest(s, id, start)
    ensures forall j | 0 <= j < |s| && s[j].candidate == id :: s[j].day <= s[l].day
  {
    var n := |s| - 1;
    assert s == s[..n] + [s[n]];
    if s[n].candidate != id {
      l := LatestIsLast(s[..n], id, start);
    } else if Held(s[..n], id) == 0 {
      l := n;
      NoneHeld(s[..n], id);
    } else {
      l := LatestIsLast(s[..n], id, start);
      if s[l].day < s[n].day { l := n; }
    }
  }

  lemma {:induction false} NoneHeld(s: seq<Session>, id: string)
    ensures Held(s, id) == 0 <==> forall j | 0 <= j < |s| :: s[j].candidate != id
  {
    if |s| > 0 {
      NoneHeld(s[..|s| - 1], id);
      assert s == s[..|s| - 1] + [s[|s| - 1]];
    }
  }

  /** What a session extends depends only on the sessions before it. */
  lemma ExtendsInPrefix(out: seq<Session>, more: seq<Session>, k: nat, w: Window)
    requires k < |out| && out <= more && ExtendsOwnWork(out, k, w)
    ensures ExtendsOwnWork(more, k, w)
  {
    assert more[..k] == out[..k];
    var l :| 0 <= l < k && LastOfOwn(out, k, l) &&
             var next := Max(out[l].day + 1, w.start);
             OpensAt(out[..k], w, if w.end.Some? && next > w.end.value then w.start else next, out[k].day);
    assert LastOfOwn(more, k, l);
  }

  lemma OneExtends(prev: seq<Session>, id: string, deadline: Option<int>, wanted: int, w: Window)
    requires Held(prev, id) > 0
    ensures var x := Session(id, Place(prev, w, Preferred(prev, id, w), deadline), 0, wanted, "");
            ExtendsOwnWork(prev + [x], |prev|, w)
  {
    var x := Session(id, Place(prev, w, Preferred(prev, id, w), deadline), 0, wanted, "");
    var out := prev + [x];
    var l := LatestIsLast(prev, id, w.start);
    PlaceOpens(prev, w, Preferred(prev, id, w), deadline);
    assert out[..|prev|] == prev;
    assert LastOfOwn(out, |prev|, l);
  }

  /** Sessions from position `base` on extend their candidates' own work. */
  ghost predicate AllExtend(out: seq<Session>, base: nat, w: Window) {
    forall k | base <= k < |out| :: ExtendsOwnWork(out, k, w)
  }

  lemma AllExtendSnoc(prev: seq<Session>, base: nat, x: Session, w: Window)
    requires AllExtend(prev, base, w) && ExtendsOwnWork(prev + [x], |prev|, w)
    ensures AllExtend(prev + [x], base, w)
  {
    forall k | base <= k < |prev + [x]| ensures ExtendsOwnWork(prev + [x], k, w) {
      if k < |prev| { ExtendsInPrefix(prev, prev + [x], k, w); }
    }
  }

  lemma {:induction false} ExtendDays(out: seq<Session>, base: nat, id: string, deadline: Option<int>, wanted: int,
                                      n: nat, w: Window)
    requires Held(out, id) > 0 && AllExtend(out, base, w)
    ensures AllExtend(Extend(out, id, deadline, wanted, n, w), base, w)
  {
    if n > 0 {
      var prev := Extend(out, id, deadline, wanted, n - 1, w);
      var x := Session(id, Place(prev, w, Preferred(prev, id, w), deadline), 0, wanted, "");
      ExtendDays(out, base, id, deadline, wanted, n - 1, w);
      assert Held(prev, id) > 0 by { ExtendHeld(out, id, deadline, wanted, n - 1, w); }
      OneExtends(prev, id, deadline, wanted, w);
      AllExtendSnoc(prev, base, x, w);
      assert Extend(out, id, deadline, wanted, n, w) == prev + [x];
    }
  }

  lemma {:induction false} TopUpAllDays(ids: seq<string>, sessions: seq<Session>, byId: map<string, Candidate>,
                                        w: Window)
    requires forall id | id in ids :: Held(sessions, id) > 0
    ensures sessions <= TopUpAll(ids, sessions, byId, w)
    ensures AllExtend(TopUpAll(ids, sessions, byId, w), |sessions|, w)
  {
    if |ids| > 0 {
      var n := |ids| - 1;
      var id, prev := ids[n], TopUpAll(ids[..n], sessions, byId, w);
      TopUpAllDays(ids[..n], sessions, byId, w);
      HeldInPrefix(sessions, prev, id);
      if id in byId {
        var wanted, lacking := Depth(AsProposals(sessions), id), Lacking(sessions, id);
        ExtendOwners(prev, id, byId[id].deadline, wanted, lacking, w);
        ExtendDays(prev, |sessions|, id, byId[id].deadline, wanted, lacking, w);
      }
    }
  }

  lemma HeldInPrefix(a: seq<Session>, b: seq<Session>, id: string)
    requires a <= b && Held(a, id) > 0
    ensures Held(b, id) > 0
  {
    NoneHeld(a, id);
    NoneHeld(b, id);
  }

  /** Every session added by top-up extends its candidate's own work. */
  lemma TopUpExtendsOwnWork(sessions: seq<Session>, candidates: seq<Candidate>, w: Window)
    ensures var out := ToppedUp(sessions, candidates, w);
            forall k | |sessions| <= k < |out| :: ExtendsOwnWork(out, k, w)
  {
    SortedNamesHold(sessions);
    TopUpAllDays(SortBy(NameBefore, Names(sessions)), sessions, ById(candidates), w);
    assert AllExtend(ToppedUp(sessions, candidates, w), |sessions|, w);
  }

  // ---- In a plan ----

  /** No session of a validated or topped-up design comes before the start of the window. */
  lemma {:induction false} DesignStartsInside(ps: seq<Proposal>, candidates: seq<Candidate>, w: Window)
    ensures forall k | 0 <= k < |Validate(ps, candidates, w)| :: w.start <= Validate(ps, candidates, w)[k].day
    ensures var out := ToppedUp(Validate(ps, candidates, w), candidates, w);
            forall k | 0 <= k < |out| :: w.start <= out[k].day
  {
    var v := Validate(ps, candidates, w);
    var from := ValidatedSources(ps, candidates, w);
    forall k | 0 <= k < |v| ensures w.start <= v[k].day { assert CameFrom(v, k, from[k], w); }
    var out := ToppedUp(v, candidates, w);
    TopUpReachesDepth(v, candidates, w);
    TopUpExtendsOwnWork(v, candidates, w);
    forall k | 0 <= k < |out| ensures w.start <= out[k].day {
      if k >= |v| { assert ExtendsOwnWork(out, k, w); }
    }
  }

  /** In a design, an added session comes after every earlier one of its candidate, with only full days between, as
      long as the day after the last one is not past the finish date; after that it takes the first open day of the
      window. */
  lemma AddedSessionsFollow(ps: seq<Proposal>, candidates: seq<Candidate>, w: Window, k: nat)
    requires |Validate(ps, candidates, w)| <= k < |ToppedUp(Validate(ps, candidates, w), candidates, w)|
    ensures var out := ToppedUp(Validate(ps, candidates, w), candidates, w);
            exists l | 0 <= l < k :: LastOfOwn(out, k, l) &&
              var late := w.end.Some? && out[l].day + 1 > w.end.value;
              (!late ==> out[k].day > out[l].day) &&
              OpensAt(out[..k], w, if late then w.start else out[l].day + 1, out[k].day)
  {
    var v := Validate(ps, candidates, w);
    var out := ToppedUp(v, candidates, w);
    DesignStartsInside(ps, candidates, w);
    TopUpExtendsOwnWork(v, candidates, w);
    assert ExtendsOwnWork(out, k, w);
  }

  // ---- Backfill: the candidate's own rule schedule, moved to open days ----

  /** Session `k` is one of candidate `c`'s own rule schedule, on the first open day from where that put it. */
  ghost predicate Refits(out: seq<Session>, k: nat, c: Candidate, w: Window)
    requires k < |out|
  {
    var plan := Rule([c], w);
    exists i | 0 <= i < |plan| :: out[k] == plan[i].(day := out[k].day) && OpensAt(out[..k], w, plan[i].day, out[k].day)
  }

  ghost predicate RefitsSome(out: seq<Session>, k: nat, cs: seq<Candidate>, w: Window)
    requires k < |out|
  {
    exists c | c in cs :: Refits(out, k, c, w)
  }

  /** Sessions from position `base` on are refitted ones of the candidates of a list. */
  ghost predicate AllRefit(out: seq<Session>, base: nat, cs: seq<Candidate>, w: Window) {
    forall k | base <= k < |out| :: RefitsSome(out, k, cs, w)
  }

  lemma AllRefitSnoc(prev: seq<Session>, base: nat, x: Session, c: Candidate, cs: seq<Candidate>, w: Window)
    requires AllRefit(prev, base, cs, w) && c in cs && Refits(prev + [x], |prev|, c, w)
    ensures AllRefit(prev + [x], base, cs, w)
  {
    var more := prev + [x];
    forall k | base <= k < |more| ensures RefitsSome(more, k, cs, w) {
      if k < |prev| {
        assert RefitsSome(prev, k, cs, w);
        var d :| d in cs && Refits(prev, k, d, w);
        assert more[..k] == prev[..k];
        assert Refits(more, k, d, w);
      }
    }
  }

  lemma {:induction false} RefitDays(out: seq<Session>, base: nat, c: Candidate, n: nat, cs: seq<Candidate>, w: Window)
    requires n <= |Rule([c], w)| && c in cs && AllRefit(out, base, cs, w)
    ensures AllRefit(Refit(out, Rule([c], w), c.deadline, n, w), base, cs, w)
  {
    if n > 0 {
      var plan := Rule([c], w);
      var prev, x := Refit(out, plan, c.deadline, n - 1, w), plan[n - 1];
      var moved := x.(day := Place(prev, w, x.day, c.deadline));
      RefitDays(out, base, c, n - 1, cs, w);
      PlaceOpens(prev, w, x.day, c.deadline);
      assert (prev + [moved])[..|prev|] == prev;
      assert Refits(prev + [moved], |prev|, c, w);
      AllRefitSnoc(prev, base, moved, c, cs, w);
    }
  }

  lemma {:induction false} BackfillAllDays(ordered: seq<Candidate>, sessions: seq<Session>, w: Window, n: nat)
    requires n <= |ordered|
    ensures AllRefit(BackfillAll(ordered[..n], sessions, w), |sessions|, ordered, w)
  {
    if n > 0 {
      var c := ordered[n - 1];
      BackfillAllDays(ordered, sessions, w, n - 1);
      assert ordered[..n][..n - 1] == ordered[..n - 1];
      RefitDays(BackfillAll(ordered[..n - 1], sessions, w), |sessions|, c, |Rule([c], w)|, ordered, w);
    }
  }

  /** Every backfilled session is one of a left-out candidate's own rule schedule, on the first open day from there. */
  lemma BackfillRefits(sessions: seq<Session>, candidates: seq<Candidate>, w: Window, k: nat)
    requires |sessions| <= k < |Backfilled(sessions, candidates, w)|
    ensures exists c | c in candidates ::
              Held(sessions, c.id) == 0 && Refits(Backfilled(sessions, candidates, w), k, c, w)
  {
    var missing, out := Missing(sessions, candidates), Backfilled(sessions, candidates, w);
    var ordered := SortBy(BackfillBefore, missing);
    BackfillAllDays(ordered, sessions, w, |ordered|);
    assert ordered[..|ordered|] == ordered;
    assert RefitsSome(out, k, ordered, w);
    var c :| c in ordered && Refits(out, k, c, w);
    SortPermutes(BackfillBefore, missing);
    MissingHolds(sessions, candidates);
    assert c in multiset(ordered);
    assert c in multiset(missing);
  }
}
