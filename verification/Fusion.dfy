/** Reciprocal rank fusion of the lexical and the vector ranking, with exact rationals. */
module Fusion {
  import opened Prelude

  /** A vector hit: a chunk id, possibly unknown, and its similarity. */
  datatype Hit = Hit(id: string, similarity: real)

  function Share(rank: nat): real { 1.0 / (60 + rank) as real }

  // ---- The lexical order ----

  /** Position in the collection and BM25 score. */
  datatype Scored = Scored(index: nat, score: real)

  predicate Bm25Before(a: Scored, b: Scored) { a.score > b.score || (a.score == b.score && a.index <= b.index) }

  function Indexed(scores: seq<real>): seq<Scored> {
    seq(|scores|, i requires 0 <= i < |scores| => Scored(i, scores[i]))
  }

  function Bm25Order(scores: seq<real>): seq<Scored> { SortBy(Bm25Before, Indexed(scores)) }

  /** Chunk ids in lexical order. */
  function LexicalIds(ids: seq<string>, scores: seq<real>): seq<string>
    requires |ids| == |scores|
  {
    Bm25OrderIndexes(scores);
    seq(|ids|, k requires 0 <= k < |ids| => ids[Bm25Order(scores)[k].index])
  }

  lemma Bm25OrderIndexes(scores: seq<real>)
    ensures |Bm25Order(scores)| == |scores|
    ensures forall k | 0 <= k < |scores| ::
              Bm25Order(scores)[k].index < |scores| && Bm25Order(scores)[k].score == scores[Bm25Order(scores)[k].index]
    ensures forall i | 0 <= i < |scores| :: Scored(i, scores[i]) in Bm25Order(scores)
  {
    var e, order := Indexed(scores), Bm25Order(scores);
    SortPermutes(Bm25Before, e);
    forall k | 0 <= k < |scores| ensures order[k] in e {
      assert order[k] in multiset(order);
      assert order[k] in multiset(e);
    }
    forall i | 0 <= i < |scores| ensures Scored(i, scores[i]) in order {
      assert e[i] in multiset(e);
      assert e[i] in multiset(order);
    }
  }

  lemma LexicalIdsDistinct(ids: seq<string>, scores: seq<real>)
    requires |ids| == |scores| && forall i, j | 0 <= i < j < |ids| :: ids[i] != ids[j]
    ensures forall i, j | 0 <= i < j < |ids| :: LexicalIds(ids, scores)[i] != LexicalIds(ids, scores)[j]
    ensures forall id :: id in LexicalIds(ids, scores) <==> id in ids
  {
    var e, order, lexical := Indexed(scores), Bm25Order(scores), LexicalIds(ids, scores);
    Bm25OrderIndexes(scores);
    SortPermutes(Bm25Before, e);
    forall x ensures multiset(order)[x] <= 1 { DistinctOccurOnce(e, x); }
    forall i, j | 0 <= i < j < |ids| ensures lexical[i] != lexical[j] {
      OccurOnceDistinct(order, i, j);
    }
    forall id | id in ids ensures id in lexical {
      var i :| 0 <= i < |ids| && ids[i] == id;
      assert Scored(i, scores[i]) in order;
      var k :| 0 <= k < |order| && order[k] == Scored(i, scores[i]);
      assert lexical[k] == id;
    }
  }

  lemma Bm25OrderTotal()
    ensures TotalPreorder(Bm25Before)
  {}

  /** The lexical order runs by descending score, and equal scores keep the order of the collection. */
  lemma LexicalByScore(ids: seq<string>, scores: seq<real>, i: nat, j: nat, p: nat, q: nat)
    requires |ids| == |scores| && (forall a, b | 0 <= a < b < |ids| :: ids[a] != ids[b]) && i < j < |ids|
    requires p < |ids| && q < |ids| && ids[p] == LexicalIds(ids, scores)[i] && ids[q] == LexicalIds(ids, scores)[j]
    ensures scores[p] > scores[q] || (scores[p] == scores[q] && p < q)
  {
    var order := Bm25Order(scores);
    Bm25OrderIndexes(scores);
    Bm25OrderTotal();
    SortOrders(Bm25Before, Indexed(scores));
    LexicalIdsDistinct(ids, scores);
    assert order[i].index == p && order[j].index == q;
    assert Bm25Before(order[i], order[j]);
  }

  // ---- Fusion ----

  /** What the first `n` entries of a ranking give one id. */
  function RankShare(ranking: seq<string>, n: nat, id: string): real
    requires n <= |ranking|
  {
    if n == 0 then 0.0 else RankShare(ranking, n - 1, id) + if ranking[n - 1] == id then Share(n) else 0.0
  }

  function HitIds(hits: seq<Hit>): seq<string> { seq(|hits|, i requires 0 <= i < |hits| => hits[i].id) }

  function Fused(lexical: seq<string>, vector: seq<string>, id: string): real {
    RankShare(lexical, |lexical|, id) + RankShare(vector, |vector|, id)
  }

  /** The similarity of the last hit with this id, 0 when there is none. */
  function Similarity(hits: seq<Hit>, id: string): real {
    if |hits| == 0 then 0.0
    else if hits[|hits| - 1].id == id then hits[|hits| - 1].similarity else Similarity(hits[..|hits| - 1], id)
  }

  /** The similarity of a chunk is that of the last hit with its id. */
  lemma {:induction false} SimilarityIsLast(hits: seq<Hit>, k: nat)
    requires k < |hits| && forall j | k < j < |hits| :: hits[j].id != hits[k].id
    ensures Similarity(hits, hits[k].id) == hits[k].similarity
  {
    if k < |hits| - 1 { SimilarityIsLast(hits[..|hits| - 1], k); }
  }

  /** A chunk with the three keys of the final order. */
  datatype Ranked = Ranked(id: string, fused: real, bm25: real, similarity: real)

  predicate RankedBefore(a: Ranked, b: Ranked) {
    a.fused > b.fused ||
    (a.fused == b.fused && (a.bm25 > b.bm25 || (a.bm25 == b.bm25 && a.similarity >= b.similarity)))
  }

  function Rankings(ids: seq<string>, scores: seq<real>, hits: seq<Hit>): seq<Ranked>
    requires |ids| == |scores|
  {
    seq(|ids|, i requires 0 <= i < |ids| =>
      Ranked(ids[i], Fused(LexicalIds(ids, scores), HitIds(hits), ids[i]), scores[i], Similarity(hits, ids[i])))
  }

  function FinalOrder(ids: seq<string>, scores: seq<real>, hits: seq<Hit>): seq<Ranked>
    requires |ids| == |scores|
  {
    SortBy(RankedBefore, Rankings(ids, scores, hits))
  }

  /** Adds a ranking's shares to the scores of known ids; unknown ids are ignored. */
  method AddShares(scores: map<string, real>, ranking: seq<string>) returns (sum: map<string, real>)
    ensures sum.Keys == scores.Keys
    ensures forall id | id in scores :: sum[id] == scores[id] + RankShare(ranking, |ranking|, id)
  {
    sum := scores;
    for k := 0 to |ranking|
      invariant sum.Keys == scores.Keys
      invariant forall id | id in scores :: sum[id] == scores[id] + RankShare(ranking, k, id)
    {
      if ranking[k] in sum { sum := sum[ranking[k] := sum[ranking[k]] + Share(k + 1)]; }
    }
  }

  method Similarities(hits: seq<Hit>) returns (order: seq<string>, scores: map<string, real>)
    ensures order == HitIds(hits)
    ensures forall id :: (if id in scores then scores[id] else 0.0) == Similarity(hits, id)
  {
    order, scores := [], map[];
    for i := 0 to |hits|
      invariant |order| == i && forall k | 0 <= k < i :: order[k] == hits[k].id
      invariant forall id :: (if id in scores then scores[id] else 0.0) == Similarity(hits[..i], id)
    {
      assert hits[..i + 1][..i] == hits[..i];
      order := order + [hits[i].id];
      scores := scores[hits[i].id := hits[i].similarity];
    }
    assert hits[..|hits|] == hits;
  }

  /** The chunks returned for a query, given the BM25 scores and the vector hits. */
  method Retrieve(ids: seq<string>, bm25: seq<real>, hits: seq<Hit>, topK: nat) returns (selected: seq<Ranked>)
    requires |ids| == |bm25|
    ensures var order := FinalOrder(ids, bm25, hits); selected == order[..Min(topK, |order|)]
  {
    var lexical := LexicalIds(ids, bm25);
    var vector, similarity := Similarities(hits);
    var zero := map id | id in ids :: 0.0;
    var first := AddShares(zero, lexical);
    var rrf := AddShares(first, vector);
    var ranked: seq<Ranked> := [];
    for i := 0 to |ids|
      invariant ranked == Rankings(ids, bm25, hits)[..i]
    {
      assert ids[i] in zero;
      var close := if ids[i] in similarity then similarity[ids[i]] else 0.0;
      ranked := ranked + [Ranked(ids[i], rrf[ids[i]], bm25[i], close)];
    }
    assert ranked == Rankings(ids, bm25, hits);
    var order := SortBy(RankedBefore, ranked);
    selected := order[..Min(topK, |order|)];
  }

  // ---- Shares by rank ----

  ghost predicate Distinct(s: seq<string>) { forall i, j | 0 <= i < j < |s| :: s[i] != s[j] }

  lemma {:induction false} ShareOfAbsent(ranking: seq<string>, n: nat, id: string)
    requires n <= |ranking| && forall k | 0 <= k < n :: ranking[k] != id
    ensures RankShare(ranking, n, id) == 0.0
  {
    if n > 0 { ShareOfAbsent(ranking, n - 1, id); }
  }

  lemma {:induction false} ShareOfRank(ranking: seq<string>, n: nat, k: nat)
    requires Distinct(ranking) && k < n <= |ranking|
    ensures RankShare(ranking, n, ranking[k]) == Share(k + 1)
  {
    if k == n - 1 {
      ShareOfAbsent(ranking, n - 1, ranking[k]);
    } else {
      ShareOfRank(ranking, n - 1, k);
    }
  }

  lemma Inverse(x: real)
    requires x > 0.0
    ensures 1.0 / x > 0.0 && (1.0 / x) * x == 1.0
  {}

  lemma ProductStrict(a: real, x: real, y: real)
    requires a > 0.0 && x < y
    ensures a * x < a * y
  {}

  lemma ProductCancels(a: real, b: real, y: real)
    requires y > 0.0 && b * y < a * y
    ensures b < a
  {}

  lemma ProductDecides(a: real, x: real, b: real, y: real)
    requires a > 0.0 && 0.0 < x < y && a * x == b * y
    ensures b < a
  {
    ProductStrict(a, x, y);
    ProductCancels(a, b, y);
  }

  lemma ShareDecreases(i: nat, j: nat)
    requires i < j
    ensures Share(i) > Share(j) > 0.0
  {
    var x: real, y: real := (60 + i) as real, (60 + j) as real;
    var a, b := 1.0 / x, 1.0 / y;
    assert a > 0.0 && a * x == 1.0 by { Inverse(x); }
    assert b > 0.0 && b * y == 1.0 by { Inverse(y); }
    ProductDecides(a, x, b, y);
  }

  /** `a` is ahead of `b` in a ranking, or `b` is not in it at all. */
  ghost predicate NotBehind(ranking: seq<string>, a: string, b: string) {
    b !in ranking || exists i, j :: 0 <= i < j < |ranking| && ranking[i] == a && ranking[j] == b
  }

  lemma {:induction false} ShareNonNegative(ranking: seq<string>, n: nat, id: string)
    requires n <= |ranking|
    ensures RankShare(ranking, n, id) >= 0.0
  {
    if n > 0 {
      ShareNonNegative(ranking, n - 1, id);
      ShareDecreases(n, n + 1);
    }
  }

  lemma NotBehindShares(ranking: seq<string>, a: string, b: string)
    requires Distinct(ranking) && NotBehind(ranking, a, b)
    ensures RankShare(ranking, |ranking|, a) >= RankShare(ranking, |ranking|, b)
  {
    ShareNonNegative(ranking, |ranking|, a);
    if b !in ranking {
      ShareOfAbsent(ranking, |ranking|, b);
    } else {
      var i, j :| 0 <= i < j < |ranking| && ranking[i] == a && ranking[j] == b;
      ShareOfRank(ranking, |ranking|, i);
      ShareOfRank(ranking, |ranking|, j);
      ShareDecreases(i + 1, j + 1);
    }
  }

  lemma AgreementScores(lexical: seq<string>, vector: seq<string>, i: nat, j: nat)
    requires Distinct(lexical) && Distinct(vector) && i < j < |lexical|
    requires NotBehind(vector, lexical[i], lexical[j])
    ensures Fused(lexical, vector, lexical[i]) > Fused(lexical, vector, lexical[j])
  {
    ShareOfRank(lexical, |lexical|, i);
    ShareOfRank(lexical, |lexical|, j);
    ShareDecreases(i + 1, j + 1);
    NotBehindShares(vector, lexical[i], lexical[j]);
  }

  // ---- The result ----

  lemma RankedOrderTotal()
    ensures TotalPreorder(RankedBefore)
  {}

  /** The final order holds the same entries as the collection, each once. */
  lemma FinalOrderPermutes(ids: seq<string>, scores: seq<real>, hits: seq<Hit>)
    requires |ids| == |scores| && Distinct(ids)
    ensures var e, order := Rankings(ids, scores, hits), FinalOrder(ids, scores, hits);
            |order| == |ids| && (forall x :: x in order <==> x in e) && forall x :: multiset(order)[x] <= 1
  {
    var e, order := Rankings(ids, scores, hits), FinalOrder(ids, scores, hits);
    SortPermutes(RankedBefore, e);
    forall x ensures multiset(order)[x] <= 1 {
      assert forall i, j | 0 <= i < j < |e| :: e[i].id != e[j].id;
      DistinctOccurOnce(e, x);
    }
    forall x ensures x in order <==> x in e {
      assert x in order <==> x in multiset(order);
      assert x in e <==> x in multiset(e);
    }
  }

  lemma FinalIdsDistinct(ids: seq<string>, scores: seq<real>, hits: seq<Hit>, i: nat, j: nat)
    requires |ids| == |scores| && Distinct(ids) && i < j < |FinalOrder(ids, scores, hits)|
    ensures FinalOrder(ids, scores, hits)[i].id != FinalOrder(ids, scores, hits)[j].id
  {
    var e, order := Rankings(ids, scores, hits), FinalOrder(ids, scores, hits);
    FinalOrderPermutes(ids, scores, hits);
    OccurOnceDistinct(order, i, j);
    assert order[i] in order && order[j] in order;
    var a :| 0 <= a < |e| && e[a] == order[i];
    var b :| 0 <= b < |e| && e[b] == order[j];
  }

  /** A chunk's fused score: 1 / (60 + rank) for its lexical rank and, when it is a hit, as much for its vector rank. */
  lemma FusedIsReciprocal(lexical: seq<string>, vector: seq<string>, i: nat)
    requires Distinct(lexical) && Distinct(vector) && i < |lexical|
    ensures lexical[i] !in vector ==> Fused(lexical, vector, lexical[i]) == 1.0 / (61 + i) as real
    ensures forall j | 0 <= j < |vector| && vector[j] == lexical[i] ::
              Fused(lexical, vector, lexical[i]) == 1.0 / (61 + i) as real + 1.0 / (61 + j) as real
  {
    ShareOfRank(lexical, |lexical|, i);
    if lexical[i] !in vector { ShareOfAbsent(vector, |vector|, lexical[i]); }
    forall j | 0 <= j < |vector| && vector[j] == lexical[i]
      ensures Fused(lexical, vector, lexical[i]) == 1.0 / (61 + i) as real + 1.0 / (61 + j) as real
    {
      ShareOfRank(vector, |vector|, j);
    }
  }

  /** What an entry of the final order says of its chunk: both rankings' fused score, its own lexical score and its last
      similarity. */
  ghost predicate EntryOf(r: Ranked, ids: seq<string>, scores: seq<real>, hits: seq<Hit>)
    requires |ids| == |scores|
  {
    r.fused == Fused(LexicalIds(ids, scores), HitIds(hits), r.id) && r.similarity == Similarity(hits, r.id) &&
    exists i | 0 <= i < |ids| :: ids[i] == r.id && scores[i] == r.bm25
  }

  /** The final order lists every chunk once, best first: by fused score, then by lexical score, then by similarity. */
  lemma FinalOrderHolds(ids: seq<string>, scores: seq<real>, hits: seq<Hit>)
    requires |ids| == |scores| && Distinct(ids)
    ensures var order := FinalOrder(ids, scores, hits);
            |order| == |ids| &&
            (forall k | 0 <= k < |order| :: EntryOf(order[k], ids, scores, hits)) &&
            (forall j, k | 0 <= j < k < |order| ::
               order[j].fused >= order[k].fused &&
               (order[j].fused == order[k].fused ==>
                  order[j].bm25 >= order[k].bm25 &&
                  (order[j].bm25 == order[k].bm25 ==> order[j].similarity >= order[k].similarity))) &&
            forall id | id in ids :: exists k :: 0 <= k < |order| && order[k].id == id
  {
    var e, order := Rankings(ids, scores, hits), FinalOrder(ids, scores, hits);
    FinalOrderPermutes(ids, scores, hits);
    RankedOrderTotal();
    SortOrders(RankedBefore, e);
    forall k | 0 <= k < |order| ensures EntryOf(order[k], ids, scores, hits) {
      assert order[k] in order;
      var a :| 0 <= a < |e| && e[a] == order[k];
      assert ids[a] == order[k].id && scores[a] == order[k].bm25;
    }
    forall j, k | 0 <= j < k < |order|
      ensures order[j].fused >= order[k].fused &&
              (order[j].fused == order[k].fused ==>
                 order[j].bm25 >= order[k].bm25 &&
                 (order[j].bm25 == order[k].bm25 ==> order[j].similarity >= order[k].similarity))
    {
      assert RankedBefore(order[j], order[k]);
    }
    forall id | id in ids ensures exists k :: 0 <= k < |order| && order[k].id == id {
      var i :| 0 <= i < |ids| && ids[i] == id;
      assert e[i] in e;
      assert e[i] in order;
      var k :| 0 <= k < |order| && order[k] == e[i];
    }
  }

  /** Where both rankings agree, so does the result: ahead lexically and not behind by vectors means ahead. */
  lemma FusionRespectsAgreement(ids: seq<string>, scores: seq<real>, hits: seq<Hit>, i: nat, j: nat, p: nat, q: nat)
    requires |ids| == |scores| && Distinct(ids) && Distinct(HitIds(hits)) && i < j < |ids|
    requires var lexical := LexicalIds(ids, scores); NotBehind(HitIds(hits), lexical[i], lexical[j])
    requires var order := FinalOrder(ids, scores, hits);
             p < |order| && q < |order| &&
             order[p].id == LexicalIds(ids, scores)[i] && order[q].id == LexicalIds(ids, scores)[j]
    ensures p < q
  {
    var order, lexical := FinalOrder(ids, scores, hits), LexicalIds(ids, scores);
    LexicalIdsDistinct(ids, scores);
    AgreementScores(lexical, HitIds(hits), i, j);
    FinalOrderHolds(ids, scores, hits);
    assert EntryOf(order[p], ids, scores, hits) && EntryOf(order[q], ids, scores, hits);
    assert order[p].fused > order[q].fused;
  }

  /** Without vector hits the result is the lexical order, position by position. */
  lemma {:induction false} NoVectorsMeansLexical(ids: seq<string>, scores: seq<real>, k: nat)
    requires |ids| == |scores| && Distinct(ids) && k < |ids|
    ensures |FinalOrder(ids, scores, [])| == |ids|
    ensures FinalOrder(ids, scores, [])[k].id == LexicalIds(ids, scores)[k]
  {
    var order, lexical := FinalOrder(ids, scores, []), LexicalIds(ids, scores);
    FinalOrderHolds(ids, scores, []);
    LexicalIdsDistinct(ids, scores);
    var at := PositionIn(ids, scores, lexical[k]);
    StrictlyPlaced(ids, scores, k, at);
  }

  lemma PositionIn(ids: seq<string>, scores: seq<real>, id: string) returns (p: nat)
    requires |ids| == |scores| && Distinct(ids) && id in ids
    ensures p < |FinalOrder(ids, scores, [])| && FinalOrder(ids, scores, [])[p].id == id
  {
    FinalOrderHolds(ids, scores, []);
    p :| p < |FinalOrder(ids, scores, [])| && FinalOrder(ids, scores, [])[p].id == id;
  }

  /** Lexical position k sits at final position k: a strictly increasing map of 0..n-1 into itself is the identity. */
  lemma StrictlyPlaced(ids: seq<string>, scores: seq<real>, k: nat, at: nat)
    requires |ids| == |scores| && Distinct(ids) && k < |ids| && at < |FinalOrder(ids, scores, [])|
    requires FinalOrder(ids, scores, [])[at].id == LexicalIds(ids, scores)[k]
    ensures at == k
  {
    PlacedAtLeast(ids, scores, k, at);
    PlacedAtMost(ids, scores, k, at);
  }

  lemma {:induction false} PlacedAtLeast(ids: seq<string>, scores: seq<real>, k: nat, at: nat)
    requires |ids| == |scores| && Distinct(ids) && k < |ids| && at < |FinalOrder(ids, scores, [])|
    requires FinalOrder(ids, scores, [])[at].id == LexicalIds(ids, scores)[k]
    ensures at >= k
  {
    if k > 0 {
      LexicalIdsDistinct(ids, scores);
      assert LexicalIds(ids, scores)[k - 1] in LexicalIds(ids, scores);
      var p := PositionIn(ids, scores, LexicalIds(ids, scores)[k - 1]);
      PlacedAtLeast(ids, scores, k - 1, p);
      assert HitIds([]) == [];
      FusionRespectsAgreement(ids, scores, [], k - 1, k, p, at);
    }
  }

  lemma {:induction false} PlacedAtMost(ids: seq<string>, scores: seq<real>, k: nat, at: nat)
    requires |ids| == |scores| && Distinct(ids) && k < |ids| && at < |FinalOrder(ids, scores, [])|
    requires FinalOrder(ids, scores, [])[at].id == LexicalIds(ids, scores)[k]
    ensures at <= k
    decreases |ids| - k
  {
    FinalOrderHolds(ids, scores, []);
    if k < |ids| - 1 {
      LexicalIdsDistinct(ids, scores);
      assert LexicalIds(ids, scores)[k + 1] in LexicalIds(ids, scores);
      var p := PositionIn(ids, scores, LexicalIds(ids, scores)[k + 1]);
      PlacedAtMost(ids, scores, k + 1, p);
      assert HitIds([]) == [];
      FusionRespectsAgreement(ids, scores, [], k, k + 1, at, p);
    }
  }
}
