/** A design that already obeys the rules passes the validator untouched, so validation is idempotent. */
module LegalDesigns {
  import opened Prelude
  import opened Text
  import opened Effort
  import opened OpenDay
  import opened Sessions
  import opened Validator

  function OnDay(ps: seq<Proposal>, day: int): nat { Count((p: Proposal) => p.day == Some(day), ps) }

  function WithKey(ps: seq<Proposal>, id: string, number: int): nat {
    Count((p: Proposal) => p.candidate == id && NumberOf(p) == number, ps)
  }

  /** Known ids, days inside the window, no repeated (candidate, number), light days, at most 8 per candidate. */
  ghost predicate Legal(ps: seq<Proposal>, byId: map<string, Candidate>, w: Window) {
    (forall p | p in ps :: p.candidate in byId && p.day.Some? && !Outside(p.day.value, w)) &&
    (forall day :: OnDay(ps, day) <= w.capacity) &&
    (forall id :: Proposed(ps, id) <= DEPTH_CEILING) &&
    (forall id, number :: WithKey(ps, id, number) <= 1)
  }

  /** A proposal kept as it stands: only `total` is normalised and `focus` trimmed. */
  function Kept(p: Proposal, all: seq<Proposal>): Session
    requires p.day.Some?
  {
    Session(p.candidate, p.day.value, NumberOf(p), Depth(all, p.candidate), Strip(p.focus))
  }

  function KeptAll(ps: seq<Proposal>, all: seq<Proposal>): seq<Session>
    requires forall p | p in ps :: p.day.Some?
  {
    seq(|ps|, i requires 0 <= i < |ps| => Kept(ps[i], all))
  }

  lemma {:induction false} KeptCounts(ps: seq<Proposal>, all: seq<Proposal>)
    requires forall p | p in ps :: p.day.Some?
    ensures forall id :: Held(KeptAll(ps, all), id) == Proposed(ps, id)
    ensures forall day :: On(Tally(KeptAll(ps, all)), day) == OnDay(ps, day)
    ensures forall id, number :: Taken(KeptAll(ps, all), id, number) <==> WithKey(ps, id, number) > 0
  {
    if |ps| == 0 {
    } else {
      var n := |ps| - 1;
      var p, front := ps[n], ps[..n];
      assert ps == front + [p];
      KeptCounts(front, all);
      var x := Kept(p, all);
      assert KeptAll(ps, all) == KeptAll(front, all) + [x];
      Snoc(KeptAll(front, all), x);
      TakenSnoc(KeptAll(front, all), x);
      forall id ensures Proposed(ps, id) == Proposed(front, id) + if p.candidate == id then 1 else 0 {
        CountSnoc((q: Proposal) => q.candidate == id, front, p);
      }
      forall day ensures OnDay(ps, day) == OnDay(front, day) + if p.day == Some(day) then 1 else 0 {
        CountSnoc((q: Proposal) => q.day == Some(day), front, p);
      }
      forall id, number
        ensures WithKey(ps, id, number) ==
                WithKey(front, id, number) + if p.candidate == id && NumberOf(p) == number then 1 else 0
      {
        CountSnoc((q: Proposal) => q.candidate == id && NumberOf(q) == number, front, p);
      }
    }
  }

  lemma LegalSorted(ps: seq<Proposal>, byId: map<string, Candidate>, w: Window)
    requires Legal(ps, byId, w)
    ensures Legal(SortBy(ProposalBefore, ps), byId, w)
    ensures forall id :: Proposed(SortBy(ProposalBefore, ps), id) == Proposed(ps, id)
  {
    var s := SortBy(ProposalBefore, ps);
    SortPermutes(ProposalBefore, ps);
    forall p | p in s ensures p in ps {
      assert p in multiset(s);
      assert p in multiset(ps);
    }
    forall day ensures OnDay(s, day) == OnDay(ps, day) {
      CountSort((p: Proposal) => p.day == Some(day), ProposalBefore, ps);
    }
    forall id ensures Proposed(s, id) == Proposed(ps, id) {
      CountSort((p: Proposal) => p.candidate == id, ProposalBefore, ps);
    }
    forall id, number ensures WithKey(s, id, number) == WithKey(ps, id, number) {
      CountSort((p: Proposal) => p.candidate == id && NumberOf(p) == number, ProposalBefore, ps);
    }
  }

  lemma NextIsAdmitted(ps: seq<Proposal>, byId: map<string, Candidate>, all: seq<Proposal>, w: Window, n: nat)
    requires n < |ps| && Legal(ps, byId, w)
    requires forall id :: Proposed(ps, id) == Proposed(all, id)
    ensures var out := KeptAll(ps[..n], all);
            Admissible(out, ps[n], byId, all) &&
            DayFor(out, ps[n].day.value, byId[ps[n].candidate], w) == ps[n].day.value
  {
    var p, out := ps[n], KeptAll(ps[..n], all);
    KeptCounts(ps[..n], all);
    assert p in ps;
    CountPrefix((q: Proposal) => q.candidate == p.candidate, ps, n);
    CountPrefix((q: Proposal) => q.day == Some(p.day.value), ps, n);
    CountPrefix((q: Proposal) => q.candidate == p.candidate && NumberOf(q) == NumberOf(p), ps, n);
    assert Held(out, p.candidate) == Proposed(ps[..n], p.candidate) < Proposed(ps, p.candidate);
    assert WithKey(ps, p.candidate, NumberOf(p)) <= 1;
    assert WithKey(ps[..n], p.candidate, NumberOf(p)) == 0;
    assert On(Tally(out), p.day.value) == OnDay(ps[..n], p.day.value) < OnDay(ps, p.day.value);
  }

  lemma NextIsKept(out: seq<Session>, p: Proposal, byId: map<string, Candidate>, all: seq<Proposal>, w: Window)
    requires Admissible(out, p, byId, all) && DayFor(out, p.day.value, byId[p.candidate], w) == p.day.value
    ensures Admit(out, p, byId, all, w) == out + [Kept(p, all)]
  {}

  lemma LegalStep(ps: seq<Proposal>, byId: map<string, Candidate>, all: seq<Proposal>, w: Window, n: nat)
    requires n < |ps| && Legal(ps, byId, w)
    requires forall id :: Proposed(ps, id) == Proposed(all, id)
    ensures Admit(KeptAll(ps[..n], all), ps[n], byId, all, w) == KeptAll(ps[..n + 1], all)
  {
    NextIsAdmitted(ps, byId, all, w, n);
    NextIsKept(KeptAll(ps[..n], all), ps[n], byId, all, w);
    assert KeptAll(ps[..n + 1], all) == KeptAll(ps[..n], all) + [Kept(ps[n], all)];
  }

  lemma {:induction false} LegalAdmitted(ps: seq<Proposal>, byId: map<string, Candidate>, all: seq<Proposal>,
                                         w: Window, n: nat)
    requires n <= |ps| && Legal(ps, byId, w)
    requires forall id :: Proposed(ps, id) == Proposed(all, id)
    ensures AdmitAll(ps[..n], byId, all, w) == KeptAll(ps[..n], all)
  {
    if n == 0 {
    } else {
      LegalAdmitted(ps, byId, all, w, n - 1);
      AdmitAllStep(ps, byId, all, w, n - 1);
      LegalStep(ps, byId, all, w, n - 1);
    }
  }

  lemma {:induction false} KeptInsert(p: Proposal, s: seq<Proposal>, all: seq<Proposal>)
    requires p.day.Some? && forall q | q in s :: q.day.Some?
    ensures forall q | q in Insert(ProposalBefore, p, s) :: q.day.Some?
    ensures multiset(KeptAll(Insert(ProposalBefore, p, s), all)) == multiset{Kept(p, all)} + multiset(KeptAll(s, all))
  {
    if |s| == 0 || ProposalBefore(p, s[0]) {
      assert KeptAll([p] + s, all) == [Kept(p, all)] + KeptAll(s, all);
    } else {
      KeptInsert(p, s[1..], all);
      var tail := Insert(ProposalBefore, p, s[1..]);
      assert KeptAll([s[0]] + tail, all) == [Kept(s[0], all)] + KeptAll(tail, all);
      assert KeptAll(s, all) == [Kept(s[0], all)] + KeptAll(s[1..], all);
    }
  }

  lemma {:induction false} KeptSort(s: seq<Proposal>, all: seq<Proposal>)
    requires forall q | q in s :: q.day.Some?
    ensures forall q | q in SortBy(ProposalBefore, s) :: q.day.Some?
    ensures multiset(KeptAll(SortBy(ProposalBefore, s), all)) == multiset(KeptAll(s, all))
  {
    if |s| == 0 {
    } else {
      KeptSort(s[1..], all);
      KeptInsert(s[0], SortBy(ProposalBefore, s[1..]), all);
      assert KeptAll(s, all) == [Kept(s[0], all)] + KeptAll(s[1..], all);
    }
  }

  /** A legal design comes out as the same sessions, with only `total` normalised and `focus` trimmed. */
  lemma LegalDesignUntouched(ps: seq<Proposal>, candidates: seq<Candidate>, w: Window)
    requires Legal(ps, ById(candidates), w)
    ensures multiset(Validate(ps, candidates, w)) == multiset(KeptAll(ps, ps))
  {
    var s := SortBy(ProposalBefore, ps);
    LegalSorted(ps, ById(candidates), w);
    LegalAdmitted(s, ById(candidates), ps, w, |s|);
    assert s[..|s|] == s;
    KeptSort(ps, ps);
  }

  // ---- Idempotence ----

  /** `again` proposes the sessions of `out` exactly, in any textual rendering of their days. */
  ghost predicate Resubmits(again: seq<Proposal>, out: seq<Session>) {
    |again| == |out| &&
    forall k | 0 <= k < |out| ::
      again[k] == Proposal(out[k].candidate, again[k].dayText, Some(out[k].day), out[k].number, out[k].total,
                           out[k].focus)
  }

  lemma {:induction false} StatedOfSound(again: seq<Proposal>, id: string, d: nat)
    requires forall p | p in again && p.candidate == id :: p.total == d
    ensures Stated(again, id) == if Proposed(again, id) > 0 then d else 0
  {
    if |again| == 0 {
    } else {
      var n := |again| - 1;
      assert again == again[..n] + [again[n]];
      StatedOfSound(again[..n], id, d);
      CountSnoc((p: Proposal) => p.candidate == id, again[..n], again[n]);
    }
  }

  lemma ResubmittedIsLegal(ps: seq<Proposal>, candidates: seq<Candidate>, w: Window, again: seq<Proposal>)
    requires var out := Validate(ps, candidates, w);
             Resubmits(again, out) && WithinCapacity(out, w.capacity) &&
             forall k | 0 <= k < |out| :: !Outside(out[k].day, w)
    ensures Legal(again, ById(candidates), w)
    ensures KeptAll(again, again) == Validate(ps, candidates, w)
  {
    var out, byId := Validate(ps, candidates, w), ById(candidates);
    AdmittedAreSound(SortBy(ProposalBefore, ps), byId, ps, w);
    assert Sound(out, byId, ps, w);
    KeptCounts(again, ps);
    assert KeptAll(again, ps) == out;
    forall id ensures Proposed(again, id) > 0 ==> Depth(again, id) == Depth(ps, id) {
      assert Held(out, id) <= Depth(ps, id);
      StatedOfSound(again, id, Depth(ps, id));
    }
    forall id ensures Proposed(again, id) <= DEPTH_CEILING { assert Held(out, id) <= Depth(ps, id); }
    forall day ensures OnDay(again, day) <= w.capacity { assert On(Tally(out), day) <= w.capacity; }
    forall id, number ensures WithKey(again, id, number) <= 1 { DistinctKeys(again, id, number); }
    forall k | 0 <= k < |out| ensures Kept(again[k], again) == out[k] {
      CountPrefix((p: Proposal) => p.candidate == out[k].candidate, again, k);
      assert Proposed(again, out[k].candidate) > 0;
    }
    assert KeptAll(again, again) == out;
  }

  lemma {:induction false} DistinctKeys(ps: seq<Proposal>, id: string, number: int)
    requires forall j, k | 0 <= j < k < |ps| ::
               ps[j].candidate != ps[k].candidate || NumberOf(ps[j]) != NumberOf(ps[k])
    ensures WithKey(ps, id, number) <= 1
  {
    if |ps| == 0 {
    } else {
      DistinctKeys(ps[1..], id, number);
      if ps[0].candidate == id && NumberOf(ps[0]) == number {
        forall q | q in ps[1..] ensures !(q.candidate == id && NumberOf(q) == number) {
          var k :| 1 <= k < |ps| && ps[k] == q;
        }
        CountPositive((p: Proposal) => p.candidate == id && NumberOf(p) == number, ps[1..]);
      }
    }
  }

  /** A day the passes may add to has room when it lies inside a bounded window. */
  lemma InWindowDayHasRoom(placed: seq<Session>, day: int, w: Window)
    requires Placeable(placed, day, w) && w.end.Some? && !Outside(day, w)
    ensures HasRoom(Tally(placed), w.capacity, day)
  {
    if !HasRoom(Tally(placed), w.capacity, day) {
      var from, deadline :| day == Place(placed, w, from, deadline);
      FirstOpenIsLeast(Tally(placed), w.capacity, from, Reach(from, deadline, w.end));
      assert false;
    }
  }

  /** A finish date keeps an in-window day from ever being overfilled. */
  lemma {:induction false} InWindowStaysWithinCapacity(out: seq<Session>, w: Window)
    requires Grows([], out, w) && w.end.Some?
    requires forall k | 0 <= k < |out| :: !Outside(out[k].day, w)
    ensures WithinCapacity(out, w.capacity)
  {
    if |out| == 0 {
    } else {
      var n := |out| - 1;
      forall k | 0 <= k < n ensures Placeable(out[..n][..k], out[..n][k].day, w) {
        assert out[..n][..k] == out[..k];
      }
      InWindowStaysWithinCapacity(out[..n], w);
      InWindowDayHasRoom(out[..n], out[n].day, w);
      forall d ensures On(Tally(out), d) <= w.capacity {
        assert On(Tally(out[..n]), d) <= w.capacity;
      }
    }
  }

  /** Whenever its output stays inside the window, validating that output again changes nothing. */
  lemma ValidationIdempotent(ps: seq<Proposal>, candidates: seq<Candidate>, w: Window, again: seq<Proposal>)
    requires Resubmits(again, Validate(ps, candidates, w))
    requires forall k | 0 <= k < |Validate(ps, candidates, w)| :: !Outside(Validate(ps, candidates, w)[k].day, w)
    requires w.end.Some? || |Validate(ps, candidates, w)| <= SafeSessions(w)
    ensures multiset(Validate(again, candidates, w)) == multiset(Validate(ps, candidates, w))
  {
    var out := Validate(ps, candidates, w);
    AdmittedAreSound(SortBy(ProposalBefore, ps), ById(candidates), ps, w);
    if w.end.Some? { InWindowStaysWithinCapacity(out, w); } else { GrowthStaysWithinCapacity(out, w); }
    ResubmittedIsLegal(ps, candidates, w, again);
    LegalDesignUntouched(again, candidates, w);
  }
}
