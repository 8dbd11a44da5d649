/** Small vocabulary shared by every module: options, clamping, stable sorting, rounding. */
module Prelude {

  datatype Option<+T> = None | Some(value: T)

  function Max(a: int, b: int): int { if a < b then b else a }

  function Min(a: int, b: int): int { if b < a then b else a }

  function Clamp(lo: int, x: int, hi: int): int { Max(lo, Min(x, hi)) }

  // ---- Stable sorting (the language's `sorted`) ----

  function Insert<T>(le: (T, T) -> bool, x: T, s: seq<T>): seq<T> {
    if |s| == 0 || le(x, s[0]) then [x] + s else [s[0]] + Insert(le, x, s[1..])
  }

  function SortBy<T>(le: (T, T) -> bool, s: seq<T>): seq<T> {
    if |s| == 0 then [] else Insert(le, s[0], SortBy(le, s[1..]))
  }

  lemma {:induction false} InsertPermutes<T>(le: (T, T) -> bool, x: T, s: seq<T>)
    ensures multiset(Insert(le, x, s)) == multiset{x} + multiset(s)
    ensures |Insert(le, x, s)| == |s| + 1
  {
    if |s| == 0 || le(x, s[0]) {
    } else {
      InsertPermutes(le, x, s[1..]);
      assert s == [s[0]] + s[1..];
    }
  }

  lemma {:induction false} SortPermutes<T>(le: (T, T) -> bool, s: seq<T>)
    ensures multiset(SortBy(le, s)) == multiset(s)
    ensures |SortBy(le, s)| == |s|
  {
    if |s| == 0 {
    } else {
      SortPermutes(le, s[1..]);
      InsertPermutes(le, s[0], SortBy(le, s[1..]));
      assert s == [s[0]] + s[1..];
    }
  }

  lemma {:induction false} DistinctOccurOnce<T>(q: seq<T>, x: T)
    requires forall i, j | 0 <= i < j < |q| :: q[i] != q[j]
    ensures multiset(q)[x] <= 1
  {
    if |q| == 0 {
    } else {
      assert q == [q[0]] + q[1..];
      DistinctOccurOnce(q[1..], x);
      if q[0] == x { assert x !in q[1..]; }
    }
  }

  lemma {:induction false} OccurOnceDistinct<T>(q: seq<T>, i: nat, j: nat)
    requires forall x :: multiset(q)[x] <= 1
    requires i < j < |q|
    ensures q[i] != q[j]
  {
    assert q == q[..j] + q[j..];
    assert q[i] in q[..j] && q[j] in q[j..];
    assert multiset(q) == multiset(q[..j]) + multiset(q[j..]);
    assert multiset(q)[q[i]] <= 1;
  }

  ghost predicate TotalPreorder<T(!new)>(le: (T, T) -> bool) {
    (forall a, b :: le(a, b) || le(b, a)) &&
    (forall a, b, c :: le(a, b) && le(b, c) ==> le(a, c))
  }

  ghost predicate Ordered<T>(le: (T, T) -> bool, s: seq<T>) {
    forall i, j | 0 <= i < j < |s| :: le(s[i], s[j])
  }

  lemma {:induction false} InsertKeepsOrder<T(!new)>(le: (T, T) -> bool, x: T, s: seq<T>)
    requires TotalPreorder(le) && Ordered(le, s)
    ensures Ordered(le, Insert(le, x, s))
  {
    if |s| == 0 || le(x, s[0]) {
    } else {
      InsertKeepsOrder(le, x, s[1..]);
      InsertPermutes(le, x, s[1..]);
      var tail := Insert(le, x, s[1..]);
      forall j | 0 <= j < |tail| ensures le(s[0], tail[j]) {
        assert tail[j] in multiset(tail);
        assert tail[j] == x || tail[j] in s[1..];
      }
    }
  }

  lemma {:induction false} SortOrders<T(!new)>(le: (T, T) -> bool, s: seq<T>)
    requires TotalPreorder(le)
    ensures Ordered(le, SortBy(le, s))
  {
    if |s| == 0 {
    } else {
      SortOrders(le, s[1..]);
      InsertKeepsOrder(le, s[0], SortBy(le, s[1..]));
    }
  }

  // ---- Counting ----

  /** How many elements satisfy `p`. */
  function Count<T>(p: T -> bool, s: seq<T>): nat {
    if |s| == 0 then 0 else (if p(s[0]) then 1 else 0) + Count(p, s[1..])
  }

  lemma {:induction false} CountAppend<T>(p: T -> bool, a: seq<T>, b: seq<T>)
    ensures Count(p, a + b) == Count(p, a) + Count(p, b)
  {
    if |a| == 0 {
      assert a + b == b;
    } else {
      assert (a + b)[1..] == a[1..] + b;
      CountAppend(p, a[1..], b);
    }
  }

  lemma CountSnoc<T>(p: T -> bool, a: seq<T>, x: T)
    ensures Count(p, a + [x]) == Count(p, a) + if p(x) then 1 else 0
  {
    CountAppend(p, a, [x]);
    assert [x][1..] == [];
  }

  lemma {:induction false} CountInsert<T>(p: T -> bool, le: (T, T) -> bool, x: T, s: seq<T>)
    ensures Count(p, Insert(le, x, s)) == Count(p, s) + if p(x) then 1 else 0
  {
    if |s| == 0 || le(x, s[0]) {
      assert ([x] + s)[1..] == s;
    } else {
      CountInsert(p, le, x, s[1..]);
      assert ([s[0]] + Insert(le, x, s[1..]))[1..] == Insert(le, x, s[1..]);
    }
  }

  lemma {:induction false} CountSort<T>(p: T -> bool, le: (T, T) -> bool, s: seq<T>)
    ensures Count(p, SortBy(le, s)) == Count(p, s)
  {
    if |s| == 0 {
    } else {
      CountSort(p, le, s[1..]);
      CountInsert(p, le, s[0], SortBy(le, s[1..]));
    }
  }

  lemma CountPrefix<T>(p: T -> bool, s: seq<T>, n: nat)
    requires n < |s|
    ensures Count(p, s[..n]) + (if p(s[n]) then 1 else 0) <= Count(p, s)
  {
    CountSnoc(p, s[..n], s[n]);
    CountAppend(p, s[..n] + [s[n]], s[n + 1..]);
    assert s == s[..n] + [s[n]] + s[n + 1..];
  }

  // ---- Weighted sums ----

  function Sum<T>(f: T -> nat, s: seq<T>): nat {
    if |s| == 0 then 0 else f(s[0]) + Sum(f, s[1..])
  }

  lemma {:induction false} SumAppend<T>(f: T -> nat, a: seq<T>, b: seq<T>)
    ensures Sum(f, a + b) == Sum(f, a) + Sum(f, b)
  {
    if |a| == 0 {
      assert a + b == b;
    } else {
      assert (a + b)[1..] == a[1..] + b;
      SumAppend(f, a[1..], b);
    }
  }

  lemma SumSnoc<T>(f: T -> nat, a: seq<T>, x: T)
    ensures Sum(f, a + [x]) == Sum(f, a) + f(x)
  {
    SumAppend(f, a, [x]);
    assert [x][1..] == [];
  }

  lemma {:induction false} SumInsert<T>(f: T -> nat, le: (T, T) -> bool, x: T, s: seq<T>)
    ensures Sum(f, Insert(le, x, s)) == Sum(f, s) + f(x)
  {
    if |s| == 0 || le(x, s[0]) {
      assert ([x] + s)[1..] == s;
    } else {
      SumInsert(f, le, x, s[1..]);
      assert ([s[0]] + Insert(le, x, s[1..]))[1..] == Insert(le, x, s[1..]);
    }
  }

  lemma {:induction false} SumSort<T>(f: T -> nat, le: (T, T) -> bool, s: seq<T>)
    ensures Sum(f, SortBy(le, s)) == Sum(f, s)
  {
    if |s| == 0 {
    } else {
      SumSort(f, le, s[1..]);
      SumInsert(f, le, s[0], SortBy(le, s[1..]));
    }
  }

  lemma {:induction false} SumAgrees<T>(f: T -> nat, g: T -> nat, s: seq<T>)
    requires forall x | x in s :: f(x) == g(x)
    ensures Sum(f, s) == Sum(g, s)
  {
    if |s| == 0 {
    } else {
      assert s[0] in s;
      SumAgrees(f, g, s[1..]);
    }
  }

  lemma {:induction false} SumZero<T>(f: T -> nat, s: seq<T>)
    requires forall x | x in s :: f(x) == 0
    ensures Sum(f, s) == 0
  {
    if |s| == 0 {
    } else {
      assert s[0] in s;
      SumZero(f, s[1..]);
    }
  }

  /** A sum with one non-zero position is the value there. */
  lemma SumSingle<T>(f: T -> nat, s: seq<T>, k: nat)
    requires k < |s| && forall i | 0 <= i < |s| && i != k :: f(s[i]) == 0
    ensures Sum(f, s) == f(s[k])
  {
    assert s == s[..k] + ([s[k]] + s[k + 1..]);
    SumAppend(f, s[..k], [s[k]] + s[k + 1..]);
    assert ([s[k]] + s[k + 1..])[1..] == s[k + 1..];
    SumZero(f, s[..k]);
    SumZero(f, s[k + 1..]);
  }

  // ---- Rounding half to even ----

  /** round(num / den) for a non-negative quotient. */
  function RoundQuotient(num: nat, den: nat): nat
    requires den > 0
  {
    var low := num / den;
    var twice := 2 * (num % den);
    if twice < den || (twice == den && low % 2 == 0) then low else low + 1
  }

  /** The rounded quotient is within half of the exact one, and even when it is half away. */
  lemma RoundQuotientNear(num: nat, den: nat)
    requires den > 0
    ensures var q := RoundQuotient(num, den);
            2 * (den * q) <= 2 * num + den && 2 * num <= 2 * (den * q) + den &&
            (2 * (den * q) == 2 * num + den || 2 * num == 2 * (den * q) + den ==> q % 2 == 0)
  {
    var low, rest := num / den, num % den;
    assert num == den * low + rest;
    assert den * (low + 1) == den * low + den;
  }

  /** The rounded number is within a half, and even when it is a half away. */
  lemma RoundNear(x: real)
    ensures -0.5 <= Round(x) as real - x <= 0.5
    ensures Round(x) as real - x in {-0.5, 0.5} ==> Round(x) % 2 == 0
  {}

  /** round(x) for a real number. */
  function Round(x: real): int {
    var low := x.Floor;
    var part := x - low as real;
    if part < 0.5 || (part == 0.5 && low % 2 == 0) then low else low + 1
  }

  lemma RoundMonotone(x: real, y: real)
    requires x <= y
    ensures Round(x) <= Round(y)
  {
    if x.Floor < y.Floor {
      assert Round(x) <= x.Floor + 1;
    } else {
      assert x.Floor == y.Floor;
    }
  }

  lemma ProductMonotone(a: int, b: int, d: int)
    requires a <= b && d >= 0
    ensures a * d <= b * d
  {}

  lemma CancelFactor(x: int, y: int, den: nat)
    requires x * den < y * den
    ensures x < y
  {}

  lemma QuotientMonotone(a: nat, b: nat, den: nat)
    requires den > 0 && a <= b
    ensures a / den <= b / den
  {
    var qa, qb := a / den, b / den;
    assert qa * den <= a;
    assert b < qb * den + den;
    assert qb * den + den == (qb + 1) * den;
    CancelFactor(qa, qb + 1, den);
  }

  lemma QuotientOfMultiple(k: nat, den: nat)
    requires den > 0
    ensures (k * den) / den == k && (k * den) % den == 0
  {
    var x := k * den;
    var q := x / den;
    assert x == q * den + x % den;
    assert q * den + den == (q + 1) * den && k * den + den == (k + 1) * den;
    CancelFactor(q, k + 1, den);
    CancelFactor(k, q + 1, den);
  }

  lemma RoundQuotientMonotone(a: nat, b: nat, den: nat)
    requires den > 0 && a <= b
    ensures RoundQuotient(a, den) <= RoundQuotient(b, den)
  {
    QuotientMonotone(a, b, den);
    if a / den == b / den {
      var q := a / den;
      assert a == q * den + a % den && b == q * den + b % den;
    }
  }

  lemma RoundQuotientBound(a: nat, den: nat, top: nat)
    requires den > 0 && a <= top * den
    ensures RoundQuotient(a, den) <= top
  {
    RoundQuotientMonotone(a, top * den, den);
    QuotientOfMultiple(top, den);
  }
}
