/** Which proposals become sessions, and where each of them lands. */
module Admission {
  import opened Prelude
  import opened Text
  import opened OpenDay
  import opened Sessions
  import opened Validator

  /** `day` is the first day from `from` on that is not full; only a run of 367 full days, 732 without a finish date,
      makes it a full one. */
  ghost predicate OpensAt(placed: seq<Session>, w: Window, from: int, day: int) {
    from <= day &&
    (forall e | from <= e < day :: On(Tally(placed), e) >= w.capacity) &&
    (On(Tally(placed), day) < w.capacity ||
     forall e | from <= e < from + (if w.end.Some? then 367 else 732) :: On(Tally(placed), e) >= w.capacity)
  }

  lemma PlaceOpens(placed: seq<Session>, w: Window, from: int, deadline: Option<int>)
    ensures OpensAt(placed, w, from, Place(placed, w, from, deadline))
  {
    var load, day := Tally(placed), Place(placed, w, from, deadline);
    NextOpenSkipsFullDays(load, from, deadline, w.end, w.capacity);
    forall e | from <= e < day ensures On(load, e) >= w.capacity { assert !HasRoom(load, w.capacity, e); }
    if !HasRoom(load, w.capacity, day) {
      forall e | from <= e < from + FullRun(w.end) ensures On(load, e) >= w.capacity {
        assert !HasRoom(load, w.capacity, e);
      }
    }
  }

  /** Searching on from a full answer still gives the first open day. */
  lemma OpensTwice(placed: seq<Session>, w: Window, from: int, middle: int, day: int)
    requires OpensAt(placed, w, from, middle) && OpensAt(placed, w, middle, day)
    requires On(Tally(placed), middle) >= w.capacity
    ensures OpensAt(placed, w, from, day)
  {
    forall e | from <= e < day ensures On(Tally(placed), e) >= w.capacity {
      assert e < middle || middle <= e;
    }
  }

  /** A proposal inside the window keeps its day unless that is full, and then takes the first open day after it; one
      outside takes the first open day from the start. */
  lemma RelocatedToFirstOpen(out: seq<Session>, wanted: int, c: Candidate, w: Window)
    ensures var inside := w.start <= wanted && (w.end.Some? ==> wanted <= w.end.value);
            OpensAt(out, w, if inside then wanted else w.start, DayFor(out, wanted, c, w)) &&
            (inside && On(Tally(out), wanted) < w.capacity ==> DayFor(out, wanted, c, w) == wanted)
  {
    var day := if Outside(wanted, w) then Place(out, w, w.start, c.deadline) else wanted;
    PlaceOpens(out, w, w.start, c.deadline);
    if !HasRoom(Tally(out), w.capacity, day) {
      PlaceOpens(out, w, day, c.deadline);
      if Outside(wanted, w) { OpensTwice(out, w, w.start, day, DayFor(out, wanted, c, w)); }
    }
  }

  // ---- The proposal behind each session ----

  /** Session `k` is what became of proposal `p`. */
  ghost predicate CameFrom(out: seq<Session>, k: nat, p: Proposal, w: Window)
    requires k < |out|
  {
    p.candidate == out[k].candidate && out[k].number == (if p.number == 0 then 1 else p.number) &&
    out[k].focus == Strip(p.focus) && p.day.Some? &&
    var inside := w.start <= p.day.value && (w.end.Some? ==> p.day.value <= w.end.value);
    OpensAt(out[..k], w, if inside then p.day.value else w.start, out[k].day)
  }

  /** Proposal by proposal, the sources of a list of sessions: positions in `ps`, in order. */
  ghost predicate Sources(at: seq<nat>, out: seq<Session>, ps: seq<Proposal>, w: Window) {
    |at| == |out| && (forall k | 0 <= k < |at| :: at[k] < |ps| && CameFrom(out, k, ps[at[k]], w)) &&
    forall j, k | 0 <= j < k < |at| :: at[j] < at[k]
  }

  lemma SourcesSnoc(at: seq<nat>, out: seq<Session>, x: Session, front: seq<Proposal>, p: Proposal, w: Window)
    requires Sources(at, out, front, w) && CameFrom(out + [x], |out|, p, w)
    ensures Sources(at + [|front|], out + [x], front + [p], w)
  {
    var more, ps := out + [x], front + [p];
    forall k | 0 <= k < |more| ensures CameFrom(more, k, ps[(at + [|front|])[k]], w) {
      if k < |out| {
        assert more[..k] == out[..k];
        assert CameFrom(out, k, front[at[k]], w);
      }
    }
  }

  lemma {:induction false} AdmittedSources(ps: seq<Proposal>, byId: map<string, Candidate>, all: seq<Proposal>,
                                           w: Window) returns (at: seq<nat>)
    ensures Sources(at, AdmitAll(ps, byId, all, w), ps, w)
  {
    if |ps| == 0 {
      at := [];
    } else {
      var n := |ps| - 1;
      var out, p := AdmitAll(ps[..n], byId, all, w), ps[n];
      at := AdmittedSources(ps[..n], byId, all, w);
      assert ps == ps[..n] + [p];
      if Admissible(out, p, byId, all) {
        var x := Session(p.candidate, DayFor(out, p.day.value, byId[p.candidate], w), NumberOf(p),
                         Depth(all, p.candidate), Strip(p.focus));
        RelocatedToFirstOpen(out, p.day.value, byId[p.candidate], w);
        assert (out + [x])[..|out|] == out;
        SourcesSnoc(at, out, x, ps[..n], p, w);
        at := at + [n];
      } else {
        forall k | 0 <= k < |at| ensures CameFrom(out, k, ps[at[k]], w) { assert CameFrom(out, k, ps[..n][at[k]], w); }
      }
    }
  }

  /** Earlier day text first, then the smaller candidate id. */
  predicate ReadBefore(a: Proposal, b: Proposal) {
    StrLe(a.dayText, b.dayText) && (a.dayText == b.dayText ==> StrLe(a.candidate, b.candidate))
  }

  lemma ProposalOrderTotal()
    ensures TotalPreorder(ProposalBefore)
  {
    forall a, b ensures ProposalBefore(a, b) || ProposalBefore(b, a) {
      StrLeTotal(a.dayText, b.dayText);
      StrLeTotal(a.candidate, b.candidate);
    }
    forall a, b, c | ProposalBefore(a, b) && ProposalBefore(b, c) ensures ProposalBefore(a, c) {
      ProposalOrderTransitive(a, b, c);
    }
  }

  lemma ProposalOrderTransitive(a: Proposal, b: Proposal, c: Proposal)
    requires ProposalBefore(a, b) && ProposalBefore(b, c)
    ensures ProposalBefore(a, c)
  {
    StrLeTotal(a.dayText, b.dayText);
    StrLeTotal(b.dayText, c.dayText);
    if a.dayText == b.dayText == c.dayText {
      StrLeTransitive(a.candidate, b.candidate, c.candidate);
    } else {
      StrLeTransitive(a.dayText, b.dayText, c.dayText);
    }
  }

  /** Every validated session comes from a proposal of its candidate and lands as that proposal's day calls for; the
      proposals are read by day text, then by candidate. */
  lemma ValidatedSources(ps: seq<Proposal>, candidates: seq<Candidate>, w: Window) returns (from: seq<Proposal>)
    ensures var out := Validate(ps, candidates, w);
            |from| == |out| && (forall k | 0 <= k < |out| :: from[k] in ps && CameFrom(out, k, from[k], w)) &&
            forall j, k | 0 <= j < k < |out| :: ReadBefore(from[j], from[k])
  {
    var ordered, out := SortBy(ProposalBefore, ps), Validate(ps, candidates, w);
    var at := AdmittedSources(ordered, ById(candidates), ps, w);
    from := seq(|at|, k requires 0 <= k < |at| => ordered[at[k]]);
    SortPermutes(ProposalBefore, ps);
    ProposalOrderTotal();
    SortOrders(ProposalBefore, ps);
    forall k | 0 <= k < |out| ensures from[k] in ps && CameFrom(out, k, from[k], w) {
      assert ordered[at[k]] in multiset(ordered);
      assert ordered[at[k]] in multiset(ps);
    }
    forall j, k | 0 <= j < k < |out| ensures ReadBefore(from[j], from[k]) {
      assert ProposalBefore(ordered[at[j]], ordered[at[k]]);
      StrLeTotal(from[j].dayText, from[k].dayText);
    }
  }

  // ---- How many proposals survive ----

  /** The session numbers proposed for a candidate on readable days. */
  function Numbers(ps: seq<Proposal>, id: string): set<int> {
    set p | p in ps && p.candidate == id && p.day.Some? :: if p.number == 0 then 1 else p.number
  }

  function TakenNumbers(out: seq<Session>, id: string): set<int> { set x | x in out && x.candidate == id :: x.number }

  lemma NumbersSnoc(front: seq<Proposal>, p: Proposal, id: string)
    ensures Numbers(front + [p], id) ==
            Numbers(front, id) + if p.candidate == id && p.day.Some? then {NumberOf(p)} else {}
  {
    var all := front + [p];
    assert forall q :: q in all <==> q in front || q == p;
    forall n | n in Numbers(front, id) ensures n in Numbers(all, id) {
      var q :| q in front && q.candidate == id && q.day.Some? && n == (if q.number == 0 then 1 else q.number);
      assert q in all;
    }
    if p.candidate == id && p.day.Some? { assert p in all; }
  }

  lemma TakenNumbersSnoc(out: seq<Session>, x: Session, id: string)
    ensures TakenNumbers(out + [x], id) == TakenNumbers(out, id) + if x.candidate == id then {x.number} else {}
  {
    var all := out + [x];
    assert forall y :: y in all <==> y in out || y == x;
    forall n | n in TakenNumbers(out, id) ensures n in TakenNumbers(all, id) {
      var y :| y in out && y.candidate == id && y.number == n;
      assert y in all;
    }
    if x.candidate == id { assert x in all; }
  }

  lemma TakenIff(out: seq<Session>, id: string, number: int)
    ensures Taken(out, id, number) <==> number in TakenNumbers(out, id)
  {
    if x :| x in out && x.candidate == id && x.number == number {
      var k :| 0 <= k < |out| && out[k] == x;
    }
  }

  /** Until a candidate is full, every number proposed for it is taken. */
  ghost predicate TakesAll(out: seq<Session>, ps: seq<Proposal>, id: string, depth: int) {
    |TakenNumbers(out, id)| == Held(out, id) <= depth && TakenNumbers(out, id) <= Numbers(ps, id) &&
    (Held(out, id) < depth ==> TakenNumbers(out, id) == Numbers(ps, id))
  }

  lemma TakesAllStep(out: seq<Session>, front: seq<Proposal>, p: Proposal, byId: map<string, Candidate>,
                     all: seq<Proposal>, w: Window, id: string)
    requires id in byId && TakesAll(out, front, id, Depth(all, id))
    ensures TakesAll(Admit(out, p, byId, all, w), front + [p], id, Depth(all, id))
  {
    NumbersSnoc(front, p, id);
    if p.day.Some? { TakenIff(out, p.candidate, NumberOf(p)); }
    if Admissible(out, p, byId, all) {
      var x := Session(p.candidate, DayFor(out, p.day.value, byId[p.candidate], w), NumberOf(p),
                       Depth(all, p.candidate), Strip(p.focus));
      Snoc(out, x);
      TakenNumbersSnoc(out, x, id);
    }
  }

  lemma {:induction false} AdmittedTakesAll(ps: seq<Proposal>, byId: map<string, Candidate>, all: seq<Proposal>,
                                            w: Window, id: string)
    requires id in byId
    ensures TakesAll(AdmitAll(ps, byId, all, w), ps, id, Depth(all, id))
  {
    if |ps| == 0 {
      assert TakenNumbers([], id) == {} == Numbers([], id);
    } else {
      var n := |ps| - 1;
      AdmittedTakesAll(ps[..n], byId, all, w, id);
      TakesAllStep(AdmitAll(ps[..n], byId, all, w), ps[..n], ps[n], byId, all, w, id);
      assert ps == ps[..n] + [ps[n]];
    }
  }

  lemma NumbersSort(ps: seq<Proposal>, id: string)
    ensures Numbers(SortBy(ProposalBefore, ps), id) == Numbers(ps, id)
  {
    var ordered := SortBy(ProposalBefore, ps);
    SortPermutes(ProposalBefore, ps);
    forall p ensures p in ordered <==> p in ps {
      assert p in ordered <==> p in multiset(ordered);
      assert p in ps <==> p in multiset(ps);
    }
  }

  /** A candidate keeps one session per number proposed for it on a readable day, up to its declared depth; an unknown
      id keeps none. */
  lemma ValidatedCount(ps: seq<Proposal>, candidates: seq<Candidate>, w: Window, id: string)
    ensures Held(Validate(ps, candidates, w), id) ==
            if id in ById(candidates) then Min(Depth(ps, id), |Numbers(ps, id)|) else 0
  {
    if id in ById(candidates) {
      AdmittedTakesAll(SortBy(ProposalBefore, ps), ById(candidates), ps, w, id);
      NumbersSort(ps, id);
      SubsetSize(TakenNumbers(Validate(ps, candidates, w), id), Numbers(ps, id));
    } else {
      ValidatedIffProposed(ps, candidates, w, id);
    }
  }

  lemma SubsetSize(a: set<int>, b: set<int>)
    requires a <= b
    ensures |a| <= |b|
  {
    assert b == a + (b - a);
  }

  // ---- How deep the model wants a candidate ----

  /** The declared depth reaches every stated total and the number of proposals, up to 8, and is no more than one of
      them or 1. */
  lemma DepthIsExact(ps: seq<Proposal>, id: string)
    ensures forall p | p in ps && p.candidate == id :: Depth(ps, id) >= Min(p.total, 8)
    ensures Depth(ps, id) >= Min(Proposed(ps, id), 8)
    ensures Depth(ps, id) in {1, 8, Proposed(ps, id)} ||
            exists p | p in ps && p.candidate == id :: Depth(ps, id) == p.total
  {
    StatedIsLargest(ps, id);
  }

  lemma {:induction false} StatedIsLargest(ps: seq<Proposal>, id: string)
    ensures forall p | p in ps && p.candidate == id :: p.total <= Stated(ps, id)
    ensures Stated(ps, id) == 0 || exists p | p in ps && p.candidate == id :: Stated(ps, id) == p.total
  {
    if |ps| > 0 {
      var front, p := ps[..|ps| - 1], ps[|ps| - 1];
      StatedIsLargest(front, id);
      assert ps == front + [p];
      if Stated(ps, id) != 0 && !(p.candidate == id && Stated(ps, id) == p.total) {
        var q :| q in front && q.candidate == id && Stated(front, id) == q.total;
        assert q in ps;
      }
    }
  }
}
