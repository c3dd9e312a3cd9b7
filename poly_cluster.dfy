/**
 * lab7's windowed product (lab7/lab5_opt.cpp).  Node 0 computes the window
 * [0, inc] itself and hands the windows [r·inc, (r+1)·inc] to ranks
 * r = 1 .. size-1 while r·inc <= M, where M = deg1+deg2+1 is the number of
 * product coefficients and inc = M / size (at least 1).  Each worker fills its
 * window into a zeroed vector of its own, and node 0 copies that window back
 * into its result.  Here the workers run one after the other, each on a fresh
 * zeroed buffer, and the message exchange is a method call.
 */
module PolyCluster {
  import opened PolySpec
  import opened PolyVector

  /**
   * lab7's `segmentMultiplication`, whose window is inclusive: every product
   * term of degree k is added into `result[k]` for k in [lo, hi].
   */
  method SegmentMultiplicationInclusive(p1: Polynomial, p2: Polynomial, result: array<int>, lo: int, hi: int)
    requires WellFormed(p1) && WellFormed(p2)
    requires Max(lo, 0) <= Min(hi, p1.degree + p2.degree) ==> Min(hi, p1.degree + p2.degree) < result.Length
    modifies result
    ensures forall k :: 0 <= k < result.Length ==>
      result[k] == old(result[k]) + if lo <= k <= hi then ConvAt(Value(p1), Value(p2), k) else 0
  {
    SegmentMultiplication(p1, p2, result, lo, hi + 1);
  }

  /**
   * Node 0's handling of one worker's reply: walking the same index pairs as
   * the inclusive segment, it overwrites (does not add) `result[k]` with
   * `buffer[k]` for every reachable k in [lo, hi].
   */
  method Merge(p1: Polynomial, p2: Polynomial, result: array<int>, buffer: array<int>, lo: int, hi: int)
    requires WellFormed(p1) && WellFormed(p2) && result != buffer
    requires Max(lo, 0) <= Min(hi, p1.degree + p2.degree) ==>
      Min(hi, p1.degree + p2.degree) < result.Length && Min(hi, p1.degree + p2.degree) < buffer.Length
    modifies result
    ensures forall k :: 0 <= k < result.Length ==>
      result[k] == if lo <= k <= hi && k <= p1.degree + p2.degree then buffer[k] else old(result[k])
  {
    var d1 := 0;
    while d1 <= p1.degree && d1 <= hi
      invariant 0 <= d1 <= p1.degree + 1
      invariant forall k :: 0 <= k < result.Length ==>
        result[k] == if lo <= k <= hi && 0 < d1 && k < d1 + p2.degree then buffer[k] else old(result[k])
    {
      var d2 := 0;
      while d2 <= p2.degree && d1 + d2 <= hi
        invariant 0 <= d2
        invariant forall k :: 0 <= k < result.Length ==>
          result[k] == if lo <= k <= hi && ((0 < d1 && k < d1 + p2.degree) || (d1 <= k < d1 + d2 && k <= d1 + p2.degree))
                       then buffer[k] else old(result[k])
      {
        if d1 + d2 >= lo {
          result[d1 + d2] := buffer[d1 + d2];
        } else {
          d2 := lo - d1 - 1;
        }
        d2 := d2 + 1;
      }
      d1 := d1 + 1;
    }
  }

  /** lab7's window width: M / size, or 1 when that is 0. */
  function ClusterIncrement(m: int, size: int): (inc: int)
    requires size >= 1
    ensures inc > 0
  {
    if m / size > 0 then m / size else 1
  }

  /**
   * Where the windows stop: stepping `start` by `inc` and `rank` by one while
   * start <= m and rank < size.  Cells 0 .. Frontier are covered.
   */
  function Frontier(start: int, rank: int, inc: int, m: int, size: int): int
    requires inc > 0
    decreases size - rank
  {
    if start <= m && rank < size then Frontier(start + inc, rank + 1, inc, m, size) else start
  }

  /** The coefficients lab7's product returns: the product up to the frontier, zero above it. */
  ghost function ClusterProduct(a: seq<int>, b: seq<int>, size: int): (r: seq<int>)
    requires a != [] && b != [] && size >= 1
    ensures |r| == |a| + |b| - 1
    ensures r[0] == a[0] * b[0]
  {
    var m := |a| + |b| - 1;
    var inc := ClusterIncrement(m, size);
    FrontierReaches(inc, 1, inc, m, size);
    ConvAtOutside(a[1..], b, -1);
    seq(m, k => if k <= Frontier(inc, 1, inc, m, size) then ConvAt(a, b, k) else 0)
  }

  /** Node 0's window, then one window per worker rank, each merged back as it arrives. */
  method Distribute(p1: Polynomial, p2: Polynomial, size: int, inc: int) returns (result: array<int>)
    requires WellFormed(p1) && WellFormed(p2) && size >= 1 && inc > 0
    ensures result.Length == p1.degree + p2.degree + 1
    ensures forall k :: 0 <= k < result.Length ==>
      result[k] == if k <= Frontier(inc, 1, inc, result.Length, size) then ConvAt(Value(p1), Value(p2), k) else 0
  {
    var m := p1.degree + p2.degree + 1;
    result := new int[m](_ => 0);
    SegmentMultiplicationInclusive(p1, p2, result, 0, inc);
    var start, rank := inc, 1;
    while start <= m && rank < size
      invariant 1 <= rank && 0 < start
      invariant Frontier(start, rank, inc, m, size) == Frontier(inc, 1, inc, m, size)
      invariant forall k :: 0 <= k < m ==> result[k] == if k <= start then ConvAt(Value(p1), Value(p2), k) else 0
      decreases size - rank
    {
      var buffer := new int[m](_ => 0);
      SegmentMultiplicationInclusive(p1, p2, buffer, start, start + inc);
      Merge(p1, p2, result, buffer, start, start + inc);
      start, rank := start + inc, rank + 1;
    }
  }

  /** `polynomialMultiplicationMT(comm, rank, size, p1, p2)` as written, with width M / size. */
  method PolynomialMultiplicationMT(p1: Polynomial, p2: Polynomial, size: int) returns (r: Polynomial)
    requires WellFormed(p1) && WellFormed(p2) && size >= 1
    ensures r == FromVector(ClusterProduct(Value(p1), Value(p2), size))
  {
    var m := p1.degree + p2.degree + 1;
    var result := Distribute(p1, p2, size, ClusterIncrement(m, size));
    assert result[..] == ClusterProduct(Value(p1), Value(p2), size);
    r := FromVector(result[..]);
  }

  /** The window width that reaches every cell: M / size rounded up. */
  function CeilIncrement(m: nat, size: int): (inc: int)
    requires m >= 1 && size >= 1
    ensures inc > 0 && size * inc >= m
  {
    var q := (m + size - 1) / size;
    assert q * size + (m + size - 1) % size == m + size - 1;
    q
  }

  /** The same distribution with the width rounded up: the full product. */
  method PolynomialMultiplicationMTCorrected(p1: Polynomial, p2: Polynomial, size: int) returns (r: Polynomial)
    requires WellFormed(p1) && WellFormed(p2) && size >= 1
    ensures r == Times(p1, p2)
  {
    var m := p1.degree + p2.degree + 1;
    var inc := CeilIncrement(m, size);
    var result := Distribute(p1, p2, size, inc);
    FrontierReaches(inc, 1, inc, m, size);
    assert result[..] == Product(Value(p1), Value(p2));
    r := FromVector(result[..]);
  }

  /** From window `rank` on, the frontier reaches past m or to size·inc. */
  lemma {:induction false} FrontierReaches(start: int, rank: int, inc: int, m: int, size: int)
    requires inc > 0 && rank <= size && start == rank * inc
    ensures Frontier(start, rank, inc, m, size) >= Min(m + 1, size * inc)
    decreases size - rank
  {
    if start <= m && rank < size {
      assert start + inc == (rank + 1) * inc;
      FrontierReaches(start + inc, rank + 1, inc, m, size);
    } else if rank == size {
      assert start == size * inc;
    }
  }

  /**
   * The width M / size reaches every cell exactly when M < size or M leaves a
   * remainder of at most 1; this is the "if" half.
   */
  lemma ClusterCoversWhenRemainderSmall(a: seq<int>, b: seq<int>, size: int)
    requires a != [] && b != [] && size >= 1
    requires var m := |a| + |b| - 1; m < size || m % size <= 1
    ensures ClusterProduct(a, b, size) == Product(a, b)
  {
    var m := |a| + |b| - 1;
    var inc := ClusterIncrement(m, size);
    FrontierReaches(inc, 1, inc, m, size);
    if m >= size {
      assert inc * size + m % size == m;
    }
    var f := Frontier(inc, 1, inc, m, size);
    assert f >= m - 1;
    var r, p := ClusterProduct(a, b, size), Product(a, b);
    forall k | 0 <= k < m
      ensures r[k] == p[k]
    {
    }
  }

  /** From window `rank` on, the frontier never passes size·inc (nor `start`, if already beyond). */
  lemma {:induction false} FrontierAtMost(start: int, rank: int, inc: int, m: int, size: int)
    requires inc > 0 && rank <= size && start == rank * inc
    ensures Frontier(start, rank, inc, m, size) <= Max(start, size * inc)
    decreases size - rank
  {
    if start <= m && rank < size {
      assert start + inc == (rank + 1) * inc;
      assert (rank + 1) * inc <= size * inc;
      FrontierAtMost(start + inc, rank + 1, inc, m, size);
    }
  }

  /** With M >= size and a remainder of 2 or more, the windows stop below the top cell M-1. */
  lemma FrontierBelowTop(m: int, size: int)
    requires size >= 1 && m >= size && m % size >= 2
    ensures Frontier(ClusterIncrement(m, size), 1, ClusterIncrement(m, size), m, size) < m - 1
  {
    var inc := ClusterIncrement(m, size);
    assert inc == m / size;
    assert inc * size + m % size == m;
    assert inc <= size * inc;
    FrontierAtMost(inc, 1, inc, m, size);
  }

  /**
   * The "only if" half: when M >= size leaves a remainder of 2 or more, the top
   * cell lies beyond the last window, so a product whose leading coefficients
   * are nonzero comes out wrong.
   */
  lemma ClusterMissesWhenRemainderLarge(a: seq<int>, b: seq<int>, size: int)
    requires a != [] && b != [] && size >= 1
    requires var m := |a| + |b| - 1; m >= size && m % size >= 2
    requires a[|a| - 1] != 0 && b[|b| - 1] != 0
    ensures ClusterProduct(a, b, size) != Product(a, b)
  {
    var m := |a| + |b| - 1;
    FrontierBelowTop(m, size);
    ConvAtTop(a, b);
    NonzeroProduct(a[|a| - 1], b[|b| - 1]);
    assert ClusterProduct(a, b, size)[m - 1] == 0;
    assert Product(a, b)[m - 1] != 0;
  }

  lemma NonzeroProduct(x: int, y: int)
    requires x != 0 && y != 0
    ensures x * y != 0
  {
  }

  /** The checked run: two polynomials of degree 10000 over 4 ranks, so M = 20001, width 5000, all covered. */
  lemma ClusterCheckedCall(a: seq<int>, b: seq<int>)
    requires |a| == 10001 && |b| == 10001
    ensures ClusterProduct(a, b, 4) == Product(a, b)
  {
    ClusterCoversWhenRemainderSmall(a, b, 4);
  }

  /**
   * The gap: x^2 times x^3 over 4 ranks gives M = 6 and width 1, so the
   * windows stop at cell 4 and the x^5 coefficient stays 0.
   */
  lemma ClusterMissesTopCoefficient()
    ensures ClusterProduct([0, 0, 1], [0, 0, 0, 1], 4)[5] == 0
    ensures Product([0, 0, 1], [0, 0, 0, 1])[5] == 1
  {
    assert Frontier(1, 1, 1, 6, 4) == 4;
  }
}
