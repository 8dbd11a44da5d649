/** The validator: which proposed sessions survive, and on which day. */
module Validator {
  import opened Prelude
  import opened Text
  import opened Effort
  import opened OpenDay
  import opened Sessions

  // ---- How deep the model wants each candidate ----

  /** Number of proposals naming a candidate. */
  function Proposed(ps: seq<Proposal>, id: string): nat { Count((p: Proposal) => p.candidate == id, ps) }

  /** The largest session total stated for a candidate, 0 when none is positive. */
  function Stated(ps: seq<Proposal>, id: string): nat {
    if |ps| == 0 then 0
    else
      var p := ps[|ps| - 1];
      if p.candidate == id then Max(Stated(ps[..|ps| - 1], id), p.total) else Stated(ps[..|ps| - 1], id)
  }

  function Depth(ps: seq<Proposal>, id: string): int {
    Clamp(1, Max(Stated(ps, id), Proposed(ps, id)), DEPTH_CEILING)
  }

  function Get(m: map<string, int>, key: string): int { if key in m then m[key] else 0 }

  method DeclaredDepth(ps: seq<Proposal>, known: set<string>) returns (depth: map<string, int>)
    ensures forall id :: id in depth <==> id in known && Proposed(ps, id) > 0
    ensures forall id | id in depth :: depth[id] == Depth(ps, id)
  {
    var placed: map<string, int> := map[];
    var stated: map<string, int> := map[];
    for i := 0 to |ps|
      invariant forall id :: id in placed <==> id in known && Proposed(ps[..i], id) > 0
      invariant forall id | id in placed :: placed[id] == Proposed(ps[..i], id)
      invariant forall id | id in known :: Get(stated, id) == Stated(ps[..i], id)
    {
      var p := ps[i];
      StepDepth(ps, i);
      if p.candidate in known {
        placed := placed[p.candidate := Get(placed, p.candidate) + 1];
        stated := stated[p.candidate := Max(Get(stated, p.candidate), p.total)];
      }
    }
    assert ps[..|ps|] == ps;
    depth := map id | id in placed :: Clamp(1, Max(Get(stated, id), placed[id]), DEPTH_CEILING);
  }

  lemma StepDepth(ps: seq<Proposal>, i: nat)
    requires i < |ps|
    ensures forall id :: Proposed(ps[..i + 1], id) == Proposed(ps[..i], id) + if ps[i].candidate == id then 1 else 0
    ensures forall id :: Stated(ps[..i + 1], id) ==
                         if ps[i].candidate == id then Max(Stated(ps[..i], id), ps[i].total) else Stated(ps[..i], id)
  {
    assert ps[..i + 1] == ps[..i] + [ps[i]];
    assert ps[..i + 1][..i] == ps[..i];
    forall id ensures Proposed(ps[..i + 1], id) == Proposed(ps[..i], id) + if ps[i].candidate == id then 1 else 0 {
      CountSnoc((p: Proposal) => p.candidate == id, ps[..i], ps[i]);
    }
  }

  // ---- Admission ----

  predicate ProposalBefore(a: Proposal, b: Proposal) {
    if a.dayText == b.dayText then StrLe(a.candidate, b.candidate) else StrLe(a.dayText, b.dayText)
  }

  /** The session number, where a missing one counts as the first. */
  function NumberOf(p: Proposal): int { if p.number == 0 then 1 else p.number }

  predicate Taken(out: seq<Session>, id: string, number: int) {
    exists k :: 0 <= k < |out| && out[k].candidate == id && out[k].number == number
  }

  predicate Outside(day: int, w: Window) { day < w.start || (w.end.Some? && day > w.end.value) }

  predicate Admissible(out: seq<Session>, p: Proposal, byId: map<string, Candidate>, all: seq<Proposal>) {
    p.candidate in byId && p.day.Some? &&
    !Taken(out, p.candidate, NumberOf(p)) && Held(out, p.candidate) < Depth(all, p.candidate)
  }

  /** The proposed day if it is usable, else the first open day after the right starting point. */
  function DayFor(out: seq<Session>, wanted: int, c: Candidate, w: Window): int {
    var day := if Outside(wanted, w) then Place(out, w, w.start, c.deadline) else wanted;
    if HasRoom(Tally(out), w.capacity, day) then day else Place(out, w, day, c.deadline)
  }

  function Admit(out: seq<Session>, p: Proposal, byId: map<string, Candidate>, all: seq<Proposal>,
                 w: Window): seq<Session>
  {
    if Admissible(out, p, byId, all) then
      out + [Session(p.candidate, DayFor(out, p.day.value, byId[p.candidate], w), NumberOf(p),
                     Depth(all, p.candidate), Strip(p.focus))]
    else out
  }

  function AdmitAll(ps: seq<Proposal>, byId: map<string, Candidate>, all: seq<Proposal>, w: Window): seq<Session> {
    if |ps| == 0 then []
    else Admit(AdmitAll(ps[..|ps| - 1], byId, all, w), ps[|ps| - 1], byId, all, w)
  }

  function Validate(ps: seq<Proposal>, candidates: seq<Candidate>, w: Window): seq<Session> {
    AdmitAll(SortBy(ProposalBefore, ps), ById(candidates), ps, w)
  }

  method UsableDay(load: Load, ghost out: seq<Session>, wanted: int, c: Candidate, w: Window) returns (day: int)
    requires load == Tally(out)
    ensures day == DayFor(out, wanted, c, w)
  {
    day := wanted;
    if day < w.start || (w.end.Some? && day > w.end.value) {
      day := NextOpenDay(load, w.start, c.deadline, w.end, w.capacity);
    }
    if On(load, day) >= w.capacity {
      day := NextOpenDay(load, day, c.deadline, w.end, w.capacity);
    }
  }

  /** The load, the keys and the counts of the sessions kept so far. */
  ghost predicate Tracks(out: seq<Session>, load: Load, seen: set<(string, int)>, counts: map<string, int>) {
    load == Tally(out) && (forall id, number :: (id, number) in seen <==> Taken(out, id, number)) &&
    forall id :: Get(counts, id) == Held(out, id)
  }

  /** One more session, and the trackers brought up to date. */
  method KeepSession(out: seq<Session>, session: Session, load: Load, seen: set<(string, int)>,
                     counts: map<string, int>)
    returns (kept: seq<Session>, load': Load, seen': set<(string, int)>, counts': map<string, int>)
    requires Tracks(out, load, seen, counts)
    ensures kept == out + [session] && Tracks(kept, load', seen', counts')
  {
    Snoc(out, session);
    TakenSnoc(out, session);
    seen' := seen + {(session.candidate, session.number)};
    counts' := counts[session.candidate := Get(counts, session.candidate) + 1];
    load' := Bump(load, session.day);
    kept := out + [session];
  }

  method ValidateSessions(ps: seq<Proposal>, candidates: seq<Candidate>, w: Window) returns (validated: seq<Session>)
    ensures validated == Validate(ps, candidates, w)
  {
    var byId := ById(candidates);
    var declared := DeclaredDepth(ps, byId.Keys);
    var load: Load := map[];
    var seen: set<(string, int)> := {};
    var counts: map<string, int> := map[];
    validated := [];
    var ordered := SortBy(ProposalBefore, ps);
    for i := 0 to |ordered|
      invariant validated == AdmitAll(ordered[..i], byId, ps, w) && Tracks(validated, load, seen, counts)
    {
      var p := ordered[i];
      AdmitAllStep(ordered, byId, ps, w, i);
      if p.candidate in byId && p.day.Some? {
        assert p.candidate in declared by { SortedNames(ps, i); }
        var candidate, number := byId[p.candidate], NumberOf(p);
        if (p.candidate, number) !in seen && Get(counts, p.candidate) < declared[p.candidate] {
          var day := UsableDay(load, validated, p.day.value, candidate, w);
          var session := Session(p.candidate, day, number, declared[p.candidate], Strip(p.focus));
          validated, load, seen, counts := KeepSession(validated, session, load, seen, counts);
        }
      }
    }
    assert ordered[..|ordered|] == ordered;
  }

  lemma AdmitAllStep(ps: seq<Proposal>, byId: map<string, Candidate>, all: seq<Proposal>, w: Window, n: nat)
    requires n < |ps|
    ensures AdmitAll(ps[..n + 1], byId, all, w) == Admit(AdmitAll(ps[..n], byId, all, w), ps[n], byId, all, w)
  {
    assert ps[..n + 1][..n] == ps[..n];
  }

  lemma TakenSnoc(out: seq<Session>, x: Session)
    ensures forall id, number :: Taken(out + [x], id, number) <==>
                                 Taken(out, id, number) || (x.candidate == id && x.number == number)
  {
    var more := out + [x];
    forall id, number | Taken(out, id, number) || (x.candidate == id && x.number == number)
      ensures Taken(more, id, number)
    {
      if x.candidate == id && x.number == number {
        assert more[|out|] == x;
      } else {
        var k :| 0 <= k < |out| && out[k].candidate == id && out[k].number == number;
        assert more[k] == out[k];
      }
    }
  }

  lemma SortedNames(ps: seq<Proposal>, i: nat)
    requires i < |SortBy(ProposalBefore, ps)|
    ensures Proposed(ps, SortBy(ProposalBefore, ps)[i].candidate) > 0
  {
    var ordered := SortBy(ProposalBefore, ps);
    var id := ordered[i].candidate;
    CountSort((p: Proposal) => p.candidate == id, ProposalBefore, ps);
    CountPrefix((p: Proposal) => p.candidate == id, ordered, i);
  }

  // ---- What survives ----

  /** Everything validation guarantees about a list of admitted sessions. */
  ghost predicate Sound(out: seq<Session>, byId: map<string, Candidate>, all: seq<Proposal>, w: Window) {
    Grows([], out, w) &&
    (forall k | 0 <= k < |out| :: out[k].candidate in byId && out[k].total == Depth(all, out[k].candidate)
                                  && out[k].number != 0 && Strip(out[k].focus) == out[k].focus) &&
    (forall j, k | 0 <= j < k < |out| :: out[j].candidate != out[k].candidate || out[j].number != out[k].number) &&
    (forall id :: Held(out, id) <= Depth(all, id))
  }

  lemma {:induction false} AdmittedAreSound(ps: seq<Proposal>, byId: map<string, Candidate>, all: seq<Proposal>,
                                            w: Window)
    ensures Sound(AdmitAll(ps, byId, all, w), byId, all, w)
  {
    if |ps| == 0 {
    } else {
      var n := |ps| - 1;
      var out, p := AdmitAll(ps[..n], byId, all, w), ps[n];
      AdmittedAreSound(ps[..n], byId, all, w);
      if Admissible(out, p, byId, all) {
        var day := DayFor(out, p.day.value, byId[p.candidate], w);
        assert Placeable(out, day, w);
        var x := Session(p.candidate, day, NumberOf(p), Depth(all, p.candidate), Strip(p.focus));
        StripIdempotent(p.focus);
        SoundSnoc(out, x, byId, all, w);
      }
    }
  }

  lemma SoundSnoc(out: seq<Session>, x: Session, byId: map<string, Candidate>, all: seq<Proposal>, w: Window)
    requires Sound(out, byId, all, w) && Placeable(out, x.day, w)
    requires x.candidate in byId && x.total == Depth(all, x.candidate) && x.number != 0 && Strip(x.focus) == x.focus
    requires !Taken(out, x.candidate, x.number) && Held(out, x.candidate) < Depth(all, x.candidate)
    ensures Sound(out + [x], byId, all, w)
  {
    var more := out + [x];
    GrowsBy([], out, x, w);
    forall id ensures Held(more, id) <= Depth(all, id) {
      Snoc(out, x);
      assert Held(out, id) <= Depth(all, id);
    }
    forall j, k | 0 <= j < k < |more|
      ensures more[j].candidate != more[k].candidate || more[j].number != more[k].number
    {
      if k == |out| { assert more[j] == out[j]; }
    }
  }

  /** A candidate keeps a session exactly when it is known and some proposal for it names a readable day. */
  lemma {:induction false} AdmittedIffProposed(ps: seq<Proposal>, byId: map<string, Candidate>, all: seq<Proposal>,
                                               w: Window, id: string)
    ensures Held(AdmitAll(ps, byId, all, w), id) > 0 <==>
            id in byId && Count((p: Proposal) => p.candidate == id && p.day.Some?, ps) > 0
  {
    if |ps| == 0 {
    } else {
      var n := |ps| - 1;
      var out, p := AdmitAll(ps[..n], byId, all, w), ps[n];
      AdmittedIffProposed(ps[..n], byId, all, w, id);
      CountSnoc((p: Proposal) => p.candidate == id && p.day.Some?, ps[..n], p);
      assert ps == ps[..n] + [p];
      if Admissible(out, p, byId, all) {
        var x := Session(p.candidate, DayFor(out, p.day.value, byId[p.candidate], w), NumberOf(p),
                         Depth(all, p.candidate), Strip(p.focus));
        Snoc(out, x);
      } else if p.candidate == id && p.day.Some? && id in byId {
        TakenMeansHeld(out, id, NumberOf(p));
      }
    }
  }

  lemma {:induction false} TakenMeansHeld(out: seq<Session>, id: string, number: int)
    ensures Taken(out, id, number) ==> Held(out, id) > 0
  {
    if |out| == 0 {
    } else {
      TakenMeansHeld(out[..|out| - 1], id, number);
      assert out == out[..|out| - 1] + [out[|out| - 1]];
      TakenSnoc(out[..|out| - 1], out[|out| - 1]);
    }
  }

  lemma ValidatedIffProposed(ps: seq<Proposal>, candidates: seq<Candidate>, w: Window, id: string)
    ensures Held(Validate(ps, candidates, w), id) > 0 <==>
            id in ById(candidates) && exists p | p in ps :: p.candidate == id && p.day.Some?
  {
    AdmittedIffProposed(SortBy(ProposalBefore, ps), ById(candidates), ps, w, id);
    CountSort((p: Proposal) => p.candidate == id && p.day.Some?, ProposalBefore, ps);
    CountPositive((p: Proposal) => p.candidate == id && p.day.Some?, ps);
  }

  lemma {:induction false} CountPositive<T>(q: T -> bool, s: seq<T>)
    ensures Count(q, s) > 0 <==> exists x | x in s :: q(x)
  {
    if |s| == 0 {
    } else {
      CountPositive(q, s[1..]);
      assert s == [s[0]] + s[1..];
    }
  }
}
