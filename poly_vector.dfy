/**
 * The vector-backed `Polynomial` of lab5 (lab5.cpp, lab5_tp.cpp, lab5_opt.cpp)
 * and lab7: a `degree` field next to a coefficient vector.  The class has value
 * semantics (its copy constructor and assignment copy both members), so it is a
 * datatype here and the in-place `padToSize` returns the padded value.
 *
 * Only coefficients 0 .. degree are meaningful; the vector may carry more
 * entries (padding).  Operators build their result in a fresh vector, so their
 * loops fill a fresh array that becomes the result's coefficients.
 */
module PolyVector {
  import opened PolySpec

  datatype Polynomial = Polynomial(degree: int, coefficients: seq<int>)

  /** `Polynomial(vector<int>)`: the degree is one less than the vector's size. */
  function FromVector(v: seq<int>): Polynomial
  {
    Polynomial(|v| - 1, v)
  }

  /** The degree indexes an existing coefficient. */
  predicate WellFormed(p: Polynomial)
  {
    0 <= p.degree < |p.coefficients|
  }

  /** Well formed, and every coefficient past the degree is a padding zero. */
  ghost predicate Valid(p: Polynomial)
  {
    WellFormed(p) && forall k :: p.degree < k < |p.coefficients| ==> p.coefficients[k] == 0
  }

  /** The meaningful coefficients, 0 .. degree. */
  function Value(p: Polynomial): seq<int>
    requires WellFormed(p)
  {
    p.coefficients[..p.degree + 1]
  }

  /** What `operator==` compares: the degree fields, and the coefficients up to them. */
  ghost predicate Same(p: Polynomial, q: Polynomial)
    requires WellFormed(p) && WellFormed(q)
  {
    p.degree == q.degree && Value(p) == Value(q)
  }

  /** Specification of `operator+`. */
  ghost function Plus(p: Polynomial, q: Polynomial): Polynomial
    requires WellFormed(p) && WellFormed(q)
  {
    FromVector(AddCoef(Value(p), Value(q)))
  }

  /** Specification of `operator-`. */
  ghost function Minus(p: Polynomial, q: Polynomial): Polynomial
    requires WellFormed(p) && WellFormed(q)
  {
    FromVector(SubCoef(Value(p), Value(q)))
  }

  /** Specification of `operator*`. */
  ghost function Times(p: Polynomial, q: Polynomial): Polynomial
    requires WellFormed(p) && WellFormed(q)
  {
    FromVector(Product(Value(p), Value(q)))
  }

  lemma ValueIsAll(p: Polynomial)
    requires WellFormed(p) && p.degree == |p.coefficients| - 1
    ensures Value(p) == p.coefficients
  {
  }

  /** A valid polynomial's vector is its value followed by padding zeros. */
  lemma SplitAtDegree(p: Polynomial)
    requires Valid(p)
    ensures p.coefficients == Value(p) + Zeros(|p.coefficients| - p.degree - 1)
  {
    var z := Zeros(|p.coefficients| - p.degree - 1);
    assert |p.coefficients| == |Value(p) + z|;
    forall k | 0 <= k < |p.coefficients| ensures p.coefficients[k] == (Value(p) + z)[k] {
      if k > p.degree {
        assert p.coefficients[k] == 0;
      }
    }
  }

  /** Reading the whole vector of a valid polynomial gives its product coefficients. */
  lemma ConvAtOfVectors(p: Polynomial, q: Polynomial, k: int)
    requires Valid(p) && Valid(q)
    ensures ConvAt(p.coefficients, q.coefficients, k) == ConvAt(Value(p), Value(q), k)
  {
    SplitAtDegree(p);
    SplitAtDegree(q);
    ConvAtPad(Value(p), |p.coefficients| - p.degree - 1, Value(q), |q.coefficients| - q.degree - 1, k);
  }

  // ---------------------------------------------------------------------------
  // Operators

  /** `operator+`: a zeroed vector of max(deg)+1 entries, then both operands added in. */
  method Add(p: Polynomial, q: Polynomial) returns (r: Polynomial)
    requires WellFormed(p) && WellFormed(q)
    ensures r == Plus(p, q)
    ensures Valid(r) && r.degree == Max(p.degree, q.degree)
  {
    var result := new int[Max(p.degree, q.degree) + 1](_ => 0);
    var d1 := 0;
    while d1 <= p.degree
      invariant 0 <= d1 <= p.degree + 1
      invariant forall k :: 0 <= k < result.Length ==> result[k] == if k < d1 then p.coefficients[k] else 0
    {
      result[d1] := result[d1] + p.coefficients[d1];
      d1 := d1 + 1;
    }
    var d2 := 0;
    while d2 <= q.degree
      invariant 0 <= d2 <= q.degree + 1
      invariant forall k :: 0 <= k < result.Length ==>
        result[k] == Coef(Value(p), k) + if k < d2 then q.coefficients[k] else 0
    {
      result[d2] := result[d2] + q.coefficients[d2];
      d2 := d2 + 1;
    }
    assert result[..] == AddCoef(Value(p), Value(q));
    r := FromVector(result[..]);
  }

  /** `operator-`: a zeroed vector of max(deg)+1 entries, the left operand added, the right subtracted. */
  method Sub(p: Polynomial, q: Polynomial) returns (r: Polynomial)
    requires WellFormed(p) && WellFormed(q)
    ensures r == Minus(p, q)
    ensures Valid(r) && r.degree == Max(p.degree, q.degree)
  {
    var result := new int[Max(p.degree, q.degree) + 1](_ => 0);
    var d1 := 0;
    while d1 <= p.degree
      invariant 0 <= d1 <= p.degree + 1
      invariant forall k :: 0 <= k < result.Length ==> result[k] == if k < d1 then p.coefficients[k] else 0
    {
      result[d1] := result[d1] + p.coefficients[d1];
      d1 := d1 + 1;
    }
    var d2 := 0;
    while d2 <= q.degree
      invariant 0 <= d2 <= q.degree + 1
      invariant forall k :: 0 <= k < result.Length ==>
        result[k] == Coef(Value(p), k) - if k < d2 then q.coefficients[k] else 0
    {
      result[d2] := result[d2] - q.coefficients[d2];
      d2 := d2 + 1;
    }
    assert result[..] == SubCoef(Value(p), Value(q));
    r := FromVector(result[..]);
  }

  /** `operator*`: every product of coefficients accumulated at the sum of their degrees. */
  method Mul(p: Polynomial, q: Polynomial) returns (r: Polynomial)
    requires WellFormed(p) && WellFormed(q)
    ensures r == Times(p, q)
    ensures Valid(r) && r.degree == p.degree + q.degree
  {
    ghost var a, b := Value(p), Value(q);
    var result := new int[p.degree + q.degree + 1](_ => 0);
    var d1 := 0;
    while d1 <= p.degree
      invariant 0 <= d1 <= p.degree + 1
      invariant forall k :: 0 <= k < result.Length ==> result[k] == ConvAt(a[..d1], b, k)
    {
      var d2 := 0;
      while d2 <= q.degree
        invariant 0 <= d2 <= q.degree + 1
        invariant forall k :: 0 <= k < result.Length ==>
          result[k] == ConvAt(a[..d1], b, k) + if d1 <= k < d1 + d2 then a[d1] * b[k - d1] else 0
      {
        result[d1 + d2] := result[d1 + d2] + p.coefficients[d1] * q.coefficients[d2];
        d2 := d2 + 1;
      }
      forall k | 0 <= k < result.Length ensures result[k] == ConvAt(a[..d1 + 1], b, k) {
        ConvAtExtend(a, b, d1, k);
      }
      d1 := d1 + 1;
    }
    assert a[..d1] == a;
    assert result[..] == Product(a, b);
    r := FromVector(result[..]);
  }

  /** `operator==`: compares the degree fields, then coefficients 0 .. degree. */
  method Equals(p: Polynomial, q: Polynomial) returns (eq: bool)
    requires WellFormed(p) && WellFormed(q)
    ensures eq <==> Same(p, q)
  {
    if p.degree != q.degree {
      return false;
    }
    var i := 0;
    while i <= p.degree
      invariant 0 <= i <= p.degree + 1
      invariant p.coefficients[..i] == q.coefficients[..i]
    {
      if p.coefficients[i] != q.coefficients[i] {
        assert Value(p)[i] != Value(q)[i];
        return false;
      }
      i := i + 1;
    }
    return true;
  }

  /** `operator!=`: the negation of `==`. */
  method NotEquals(p: Polynomial, q: Polynomial) returns (ne: bool)
    requires WellFormed(p) && WellFormed(q)
    ensures ne <==> !Same(p, q)
  {
    var eq := Equals(p, q);
    ne := !eq;
  }

  /**
   * `padToSize(size)`: pushes zeros until the vector has `size` entries; a
   * vector that is already long enough is left as it is, and so is the degree.
   */
  method PadToSize(p: Polynomial, size: int) returns (padded: Polynomial)
    ensures padded.degree == p.degree
    ensures padded.coefficients == Padded(p.coefficients, size)
    ensures |padded.coefficients| == Max(size, |p.coefficients|)
    ensures WellFormed(p) ==> WellFormed(padded) && Value(padded) == Value(p)
    ensures Valid(p) ==> Valid(padded)
  {
    var coefficients := p.coefficients;
    var missing := size - |p.coefficients|;
    var i := 0;
    while i < missing
      invariant 0 <= i <= Max(0, missing)
      invariant coefficients == p.coefficients + Zeros(i)
    {
      coefficients := coefficients + [0];
      i := i + 1;
    }
    padded := Polynomial(p.degree, coefficients);
  }

  // ---------------------------------------------------------------------------
  // Laws of the operators

  /** Subtracting what was added restores every coefficient; with the larger degree on the left, `==` holds. */
  lemma {:induction false} SubUndoesAdd(p: Polynomial, q: Polynomial)
    requires WellFormed(p) && WellFormed(q)
    ensures forall k :: Coef(Value(Minus(Plus(p, q), q)), k) == Coef(Value(p), k)
    ensures q.degree <= p.degree ==> Same(Minus(Plus(p, q), q), p)
  {
    var s := Plus(p, q);
    var d := Minus(s, q);
    assert Value(s) == AddCoef(Value(p), Value(q));
    assert Value(d) == SubCoef(Value(s), Value(q));
    AddThenSub(Value(p), Value(q));
    if q.degree <= p.degree {
      forall k | 0 <= k < |Value(d)| ensures Value(d)[k] == Value(p)[k] {
        assert Coef(Value(d), k) == Coef(Value(p), k);
      }
    }
  }

  /** `p*q == q*p` under `==`. */
  lemma SwappedOperands(p: Polynomial, q: Polynomial)
    requires WellFormed(p) && WellFormed(q)
    ensures Same(Times(q, p), Times(p, q))
  {
    ProductCommutes(Value(p), Value(q));
  }

  /** `==` ignores padding: a polynomial equals its padded self. */
  lemma PaddingKeepsEquality(p: Polynomial, n: nat)
    requires WellFormed(p)
    ensures Same(Polynomial(p.degree, p.coefficients + Zeros(n)), p)
  {
    assert (p.coefficients + Zeros(n))[..p.degree + 1] == Value(p);
  }

  // ---------------------------------------------------------------------------
  // Karatsuba

  /** When `karatsuba` stops recursing and multiplies directly. */
  datatype Cutoff = Below(bound: nat) | AtOne

  predicate IsBase(cutoff: Cutoff, n: int)
  {
    match cutoff
    case Below(bound) => n < bound
    case AtOne => n == 1
  }

  /** A cutoff under which every recursive call has at least one coefficient. */
  predicate Recurses(cutoff: Cutoff)
  {
    cutoff.Below? ==> cutoff.bound >= 2
  }

  /** lab5_opt.cpp: the direct product below 65 coefficients. */
  const OptCutoff: Cutoff := Below(65)
  /** lab5_tp.cpp: the direct product below 64 coefficients. */
  const PoolCutoff: Cutoff := Below(64)
  /** lab5.cpp: recursion down to single coefficients. */
  const PlainCutoff: Cutoff := AtOne

  /**
   * `karatsuba(p1, p2)` on two vectors of the same size n.  Below the cutoff it
   * is `p1 * p2`; above it, the halves are multiplied recursively and the three
   * partial products are added into a zeroed vector of 2n-1 entries at offsets
   * 0, mid and 2·mid.  The degree is set to deg1 + deg2 either way.
   */
  method Karatsuba(p1: Polynomial, p2: Polynomial, cutoff: Cutoff) returns (r: Polynomial)
    requires Valid(p1) && Valid(p2) && |p1.coefficients| == |p2.coefficients|
    requires Recurses(cutoff)
    ensures Valid(r) && r.degree == p1.degree + p2.degree
    ensures Value(r) == Product(Value(p1), Value(p2))
    ensures |r.coefficients| ==
      if IsBase(cutoff, |p1.coefficients|) then p1.degree + p2.degree + 1 else 2 * |p1.coefficients| - 1
    ensures forall k :: 0 <= k < |r.coefficients| ==>
      r.coefficients[k] == ConvAt(p1.coefficients, p2.coefficients, k)
    decreases |p1.coefficients|, 2
  {
    if IsBase(cutoff, |p1.coefficients|) {
      r := Mul(p1, p2);
      forall k | 0 <= k < |r.coefficients|
        ensures r.coefficients[k] == ConvAt(p1.coefficients, p2.coefficients, k)
      {
        ConvAtOfVectors(p1, p2, k);
      }
    } else {
      r := KaratsubaStep(p1, p2, cutoff);
    }
  }

  /** One level of `karatsuba` above the cutoff: split at mid = n/2, recurse three times, recombine. */
  method KaratsubaStep(p1: Polynomial, p2: Polynomial, cutoff: Cutoff) returns (r: Polynomial)
    requires Valid(p1) && Valid(p2) && |p1.coefficients| == |p2.coefficients|
    requires Recurses(cutoff) && !IsBase(cutoff, |p1.coefficients|)
    ensures Valid(r) && r.degree == p1.degree + p2.degree
    ensures Value(r) == Product(Value(p1), Value(p2))
    ensures |r.coefficients| == 2 * |p1.coefficients| - 1
    ensures forall k :: 0 <= k < |r.coefficients| ==>
      r.coefficients[k] == ConvAt(p1.coefficients, p2.coefficients, k)
    decreases |p1.coefficients|, 1
  {
    var n := |p1.coefficients|;
    var mid := n / 2;
    var z0, z1, z2, z4 := PartialProducts(p1, p2, cutoff);
    var result := Recombination(z0, z4, z1, mid, n);
    RecombineAll(p1.coefficients, p2.coefficients, mid, z0, z1, z2, z4, result);
    r := Polynomial(p1.degree + p2.degree, result);
    ProductFromVectors(p1, p2, r);
  }

  /**
   * The halves of both operands and the three recursive products of
   * `karatsuba`: z0 of the low halves, z1 of the high halves, z2 of the
   * half sums, and the middle term z4 = z2 - z1 - z0.
   */
  method PartialProducts(p1: Polynomial, p2: Polynomial, cutoff: Cutoff) returns (z0: seq<int>, z1: seq<int>, z2: seq<int>, z4: seq<int>)
    requires Valid(p1) && Valid(p2) && |p1.coefficients| == |p2.coefficients|
    requires Recurses(cutoff) && !IsBase(cutoff, |p1.coefficients|)
    ensures var a, b, mid := p1.coefficients, p2.coefficients, |p1.coefficients| / 2;
      0 < mid && |z0| == 2 * mid - 1 && |z1| == |z2| == |z4| == 2 * (|a| - mid) - 1 &&
      (forall j :: 0 <= j < |z0| ==> z0[j] == ConvAt(a[..mid], b[..mid], j)) &&
      (forall j :: 0 <= j < |z1| ==> z1[j] == ConvAt(a[mid..], b[mid..], j)) &&
      (forall j :: 0 <= j < |z2| ==> z2[j] == ConvAt(AddCoef(a[..mid], a[mid..]), AddCoef(b[..mid], b[mid..]), j))
    ensures forall j :: Coef(z4, j) == Coef(z2, j) - Coef(z1, j) - Coef(z0, j)
    decreases |p1.coefficients|, 0
  {
    var n := |p1.coefficients|;
    var mid := n / 2;
    ghost var a0, a1, b0, b1 := p1.coefficients[..mid], p1.coefficients[mid..], p2.coefficients[..mid], p2.coefficients[mid..];
    var low1, high1 := FromVector(p1.coefficients[..mid]), FromVector(p1.coefficients[mid..]);
    var low2, high2 := FromVector(p2.coefficients[..mid]), FromVector(p2.coefficients[mid..]);
    ValueIsAll(low1);
    ValueIsAll(high1);
    ValueIsAll(low2);
    ValueIsAll(high2);
    var l1h1 := Add(low1, high1);
    var l2h2 := Add(low2, high2);
    var r0 := Karatsuba(low1, low2, cutoff);
    var r1 := Karatsuba(high1, high2, cutoff);
    var r2 := Karatsuba(l1h1, l2h2, cutoff);
    var r21 := Sub(r2, r1);
    var r4 := Sub(r21, r0);
    ValueIsAll(r0);
    ValueIsAll(r1);
    ValueIsAll(r2);
    ValueIsAll(r21);
    assert r21.coefficients == SubCoef(r2.coefficients, r1.coefficients);
    assert r4.coefficients == SubCoef(r21.coefficients, r0.coefficients);
    assert l1h1.coefficients == AddCoef(a0, a1);
    assert l2h2.coefficients == AddCoef(b0, b1);
    z0, z1, z2, z4 := r0.coefficients, r1.coefficients, r2.coefficients, r4.coefficients;
    MiddleCoefs(z0, z1, z2, r21.coefficients, z4);
  }

  /** The middle term z4 = (z2 - z1) - z0, read one coefficient at a time. */
  lemma MiddleCoefs(z0: seq<int>, z1: seq<int>, z2: seq<int>, z21: seq<int>, z4: seq<int>)
    requires z21 == SubCoef(z2, z1) && z4 == SubCoef(z21, z0)
    ensures forall j :: Coef(z4, j) == Coef(z2, j) - Coef(z1, j) - Coef(z0, j)
  {
    forall j ensures Coef(z4, j) == Coef(z2, j) - Coef(z1, j) - Coef(z0, j) {
      CoefSub(z21, z0, j);
      CoefSub(z2, z1, j);
    }
  }

  /** Every coefficient the recombination produces is the product coefficient. */
  lemma RecombineAll(a: seq<int>, b: seq<int>, mid: nat, z0: seq<int>, z1: seq<int>, z2: seq<int>,
                     z4: seq<int>, result: seq<int>)
    requires 0 < mid && 2 * mid <= |a| && |a| == |b|
    requires |z0| == 2 * mid - 1 && |z1| == |z2| == 2 * (|a| - mid) - 1
    requires forall j :: 0 <= j < |z0| ==> z0[j] == ConvAt(a[..mid], b[..mid], j)
    requires forall j :: 0 <= j < |z1| ==> z1[j] == ConvAt(a[mid..], b[mid..], j)
    requires forall j :: 0 <= j < |z2| ==> z2[j] == ConvAt(AddCoef(a[..mid], a[mid..]), AddCoef(b[..mid], b[mid..]), j)
    requires forall j :: Coef(z4, j) == Coef(z2, j) - Coef(z1, j) - Coef(z0, j)
    requires forall k :: 0 <= k < |result| ==> result[k] == Coef(z0, k) + Coef(z4, k - mid) + Coef(z1, k - 2 * mid)
    ensures forall k :: 0 <= k < |result| ==> result[k] == ConvAt(a, b, k)
  {
    forall k | 0 <= k < |result| ensures result[k] == ConvAt(a, b, k) {
      Recombine(a, b, mid, z0, z1, z2, z4, k);
    }
  }

  /** A vector of product coefficients of the padded operands, cut at deg1+deg2, is the product. */
  lemma ProductFromVectors(p1: Polynomial, p2: Polynomial, r: Polynomial)
    requires Valid(p1) && Valid(p2)
    requires r.degree == p1.degree + p2.degree < |r.coefficients|
    requires forall k :: 0 <= k < |r.coefficients| ==> r.coefficients[k] == ConvAt(p1.coefficients, p2.coefficients, k)
    ensures Valid(r) && Value(r) == Product(Value(p1), Value(p2))
  {
    forall k | r.degree < k < |r.coefficients| ensures r.coefficients[k] == 0 {
      ConvAtOfVectors(p1, p2, k);
      ConvAtOutside(Value(p1), Value(p2), k);
    }
    forall k | 0 <= k < |Value(r)| ensures Value(r)[k] == Product(Value(p1), Value(p2))[k] {
      ConvAtOfVectors(p1, p2, k);
    }
  }

  /**
   * The three loops that close `karatsuba`: z0, the middle term z4 and z1 are
   * added into a zeroed vector of 2n-1 entries at offsets 0, mid and 2·mid.
   */
  method Recombination(z0: seq<int>, z4: seq<int>, z1: seq<int>, mid: nat, n: nat) returns (result: seq<int>)
    requires n >= 1 && |z0| <= 2 * n - 1 && mid + |z4| <= 2 * n - 1 && 2 * mid + |z1| <= 2 * n - 1
    ensures |result| == 2 * n - 1
    ensures forall k :: 0 <= k < |result| ==> result[k] == Coef(z0, k) + Coef(z4, k - mid) + Coef(z1, k - 2 * mid)
  {
    var buffer := new int[2 * n - 1](_ => 0);
    var i := 0;
    while i < |z0|
      invariant 0 <= i <= |z0|
      invariant forall k :: 0 <= k < buffer.Length ==> buffer[k] == if k < i then z0[k] else 0
    {
      buffer[i] := buffer[i] + z0[i];
      i := i + 1;
    }
    i := 0;
    while i < |z4|
      invariant 0 <= i <= |z4|
      invariant forall k :: 0 <= k < buffer.Length ==>
        buffer[k] == Coef(z0, k) + if mid <= k < mid + i then z4[k - mid] else 0
    {
      buffer[i + mid] := buffer[i + mid] + z4[i];
      i := i + 1;
    }
    i := 0;
    while i < |z1|
      invariant 0 <= i <= |z1|
      invariant forall k :: 0 <= k < buffer.Length ==>
        buffer[k] == Coef(z0, k) + Coef(z4, k - mid) + if 2 * mid <= k < 2 * mid + i then z1[k - 2 * mid] else 0
    {
      buffer[i + 2 * mid] := buffer[i + 2 * mid] + z1[i];
      i := i + 1;
    }
    result := buffer[..];
  }

  /** A vector holding exactly the product coefficients reads as the product everywhere. */
  lemma CoefIsConv(z: seq<int>, x: seq<int>, y: seq<int>, j: int)
    requires |z| == |x| + |y| - 1
    requires forall i :: 0 <= i < |z| ==> z[i] == ConvAt(x, y, i)
    ensures Coef(z, j) == ConvAt(x, y, j)
  {
    if !(0 <= j < |z|) {
      ConvAtOutside(x, y, j);
    }
  }

  /** The recombination step of `Karatsuba`, one coefficient at a time. */
  lemma Recombine(a: seq<int>, b: seq<int>, mid: nat, z0: seq<int>, z1: seq<int>, z2: seq<int>, z4: seq<int>, k: int)
    requires 0 < mid && 2 * mid <= |a| && |a| == |b|
    requires |z0| == 2 * mid - 1 && |z1| == |z2| == 2 * (|a| - mid) - 1
    requires forall j :: 0 <= j < |z0| ==> z0[j] == ConvAt(a[..mid], b[..mid], j)
    requires forall j :: 0 <= j < |z1| ==> z1[j] == ConvAt(a[mid..], b[mid..], j)
    requires forall j :: 0 <= j < |z2| ==> z2[j] == ConvAt(AddCoef(a[..mid], a[mid..]), AddCoef(b[..mid], b[mid..]), j)
    requires Coef(z4, k - mid) == Coef(z2, k - mid) - Coef(z1, k - mid) - Coef(z0, k - mid)
    ensures Coef(z0, k) + Coef(z4, k - mid) + Coef(z1, k - 2 * mid) == ConvAt(a, b, k)
  {
    var a0, a1, b0, b1 := a[..mid], a[mid..], b[..mid], b[mid..];
    var sa, sb := AddCoef(a0, a1), AddCoef(b0, b1);
    assert Coef(z0, k) == ConvAt(a0, b0, k) by { CoefIsConv(z0, a0, b0, k); }
    assert Coef(z0, k - mid) == ConvAt(a0, b0, k - mid) by { CoefIsConv(z0, a0, b0, k - mid); }
    assert Coef(z1, k - mid) == ConvAt(a1, b1, k - mid) by { CoefIsConv(z1, a1, b1, k - mid); }
    assert Coef(z1, k - 2 * mid) == ConvAt(a1, b1, k - 2 * mid) by { CoefIsConv(z1, a1, b1, k - 2 * mid); }
    assert Coef(z2, k - mid) == ConvAt(sa, sb, k - mid) by {
      assert |sa| == |a| - mid;
      CoefIsConv(z2, sa, sb, k - mid);
    }
    assert ConvAt(a, b, k) == ConvAt(a0 + a1, b0 + b1, k) by {
      assert a == a0 + a1 && b == b0 + b1;
    }
    KaratsubaRecombine(a0, a1, b0, b1, k);
  }

  /**
   * `karatsuba_mult(p1, p2)`: pads both operands in place to max(deg)+2
   * coefficients, then runs `karatsuba`; the padded operands are returned
   * alongside the product.
   */
  method KaratsubaMult(p1: Polynomial, p2: Polynomial, cutoff: Cutoff)
    returns (r: Polynomial, padded1: Polynomial, padded2: Polynomial)
    requires Valid(p1) && Valid(p2) && Recurses(cutoff)
    requires |p1.coefficients| <= Max(p1.degree, p2.degree) + 2
    requires |p2.coefficients| <= Max(p1.degree, p2.degree) + 2
    ensures Valid(padded1) && padded1.degree == p1.degree && Value(padded1) == Value(p1)
    ensures Valid(padded2) && padded2.degree == p2.degree && Value(padded2) == Value(p2)
    ensures |padded1.coefficients| == |padded2.coefficients| == Max(p1.degree, p2.degree) + 2
    ensures Valid(r) && Same(r, Times(p1, p2))
  {
    var x := Max(p1.degree + 1, p2.degree + 1);
    padded1 := PadToSize(p1, x + 1);
    padded2 := PadToSize(p2, x + 1);
    r := Karatsuba(padded1, padded2, cutoff);
  }

  // ---------------------------------------------------------------------------
  // Windowed schoolbook product

  /**
   * `segmentMultiplication(p1, p2, result, lo, hi)` adds every product of
   * coefficients whose degrees sum to k into `result[k]`, for k in [lo, hi),
   * skipping ahead to the window when a row starts below it.
   */
  method SegmentMultiplication(p1: Polynomial, p2: Polynomial, result: array<int>, lo: int, hi: int)
    requires WellFormed(p1) && WellFormed(p2)
    requires Max(lo, 0) < Min(hi, p1.degree + p2.degree + 1) ==> Min(hi, p1.degree + p2.degree + 1) <= result.Length
    modifies result
    ensures forall k :: 0 <= k < result.Length ==>
      result[k] == old(result[k]) + if lo <= k < hi then ConvAt(Value(p1), Value(p2), k) else 0
  {
    ghost var a, b := Value(p1), Value(p2);
    var d1 := 0;
    while d1 <= p1.degree && d1 < hi
      invariant 0 <= d1 <= p1.degree + 1
      invariant forall k :: 0 <= k < result.Length ==>
        result[k] == old(result[k]) + if lo <= k < hi then ConvAt(a[..d1], b, k) else 0
    {
      var d2 := 0;
      while d2 <= p2.degree && d1 + d2 < hi
        invariant 0 <= d2
        invariant forall k :: 0 <= k < result.Length ==>
          result[k] == old(result[k])
            + if lo <= k < hi then ConvAt(a[..d1], b, k) + (if d1 <= k < d1 + d2 then a[d1] * Coef(b, k - d1) else 0)
              else 0
      {
        if d1 + d2 >= lo {
          result[d1 + d2] := result[d1 + d2] + p1.coefficients[d1] * p2.coefficients[d2];
        } else {
          d2 := lo - d1 - 1;
        }
        d2 := d2 + 1;
      }
      forall k | 0 <= k < result.Length && lo <= k < hi
        ensures ConvAt(a[..d1], b, k) + (if d1 <= k < d1 + d2 then a[d1] * Coef(b, k - d1) else 0)
          == ConvAt(a[..d1 + 1], b, k)
      {
        ConvAtExtend(a, b, d1, k);
      }
      d1 := d1 + 1;
    }
    forall k | 0 <= k < result.Length && lo <= k < hi ensures ConvAt(a[..d1], b, k) == ConvAt(a, b, k) {
      if d1 < |a| {
        ConvAtPrefix(a, b, d1, k);
      } else {
        assert a[..d1] == a;
      }
    }
  }

  /** Starting at 0 and stepping by `inc`, windows [start, start+inc) while start <= M: all of [0, M) is covered. */
  method RunWindows(p1: Polynomial, p2: Polynomial, result: array<int>, inc: int)
    requires WellFormed(p1) && WellFormed(p2) && inc > 0
    requires result.Length == p1.degree + p2.degree + 1
    requires forall k :: 0 <= k < result.Length ==> result[k] == 0
    modifies result
    ensures result[..] == Product(Value(p1), Value(p2))
  {
    var start := 0;
    while start <= result.Length
      invariant 0 <= start <= result.Length + inc
      invariant forall k :: 0 <= k < result.Length ==>
        result[k] == if k < start then ConvAt(Value(p1), Value(p2), k) else 0
    {
      SegmentMultiplication(p1, p2, result, start, start + inc);
      start := start + inc;
    }
  }

  /** The window width of lab5's `polynomialMultiplicationMT`: M·3/2/16, or 4 when that is 0. */
  function PoolIncrement(m: nat): (inc: int)
    ensures inc > 0
  {
    if m * 3 / 2 / 16 > 0 then m * 3 / 2 / 16 else 4
  }

  /** `polynomialMultiplicationMT`: the windows, run one after the other, on a zeroed vector of deg1+deg2+1 entries. */
  method PolynomialMultiplicationMT(p1: Polynomial, p2: Polynomial) returns (r: Polynomial)
    requires WellFormed(p1) && WellFormed(p2)
    ensures r == Times(p1, p2)
  {
    var m := p1.degree + p2.degree + 1;
    var result := new int[m](_ => 0);
    RunWindows(p1, p2, result, PoolIncrement(m));
    r := FromVector(result[..]);
  }
}
