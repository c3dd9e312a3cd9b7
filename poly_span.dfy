/**
 * The span-based Karatsuba of lab5/lab5_opt_span.cpp.  `karatsuba(A, B)` reads
 * two equally long views of coefficient vectors and returns a plain vector of
 * 2n-1 product coefficients; `karatsuba_mult` wraps it in a `Polynomial` and
 * adjusts the degree afterwards.  The class's operators, `padToSize` and
 * `segmentMultiplication` are those of the vector-backed model.  A view is a
 * slice of a sequence here.
 */
module PolySpan {
  import opened PolySpec
  import opened PolyVector

  /** The direct double loop used below 65 coefficients: every A[i]·B[j] added into cell i+j of 2n-1. */
  method DirectProduct(A: seq<int>, B: seq<int>) returns (r: seq<int>)
    requires |A| == |B| >= 1
    ensures r == Product(A, B)
  {
    var result := new int[|A| * 2 - 1](_ => 0);
    var i := 0;
    while i < |A|
      invariant 0 <= i <= |A|
      invariant forall k :: 0 <= k < result.Length ==> result[k] == ConvAt(A[..i], B, k)
    {
      var j := 0;
      while j < |B|
        invariant 0 <= j <= |B|
        invariant forall k :: 0 <= k < result.Length ==>
          result[k] == ConvAt(A[..i], B, k) + if i <= k < i + j then A[i] * B[k - i] else 0
      {
        result[i + j] := result[i + j] + A[i] * B[j];
        j := j + 1;
      }
      forall k | 0 <= k < result.Length ensures result[k] == ConvAt(A[..i + 1], B, k) {
        ConvAtExtend(A, B, i, k);
      }
      i := i + 1;
    }
    assert A[..i] == A;
    r := result[..];
  }

  /** `A0A1` / `B0B1`: a zeroed vector of max(|low|, |high|) entries with both halves added in. */
  method SumHalves(low: seq<int>, high: seq<int>) returns (sum: seq<int>)
    ensures sum == AddCoef(low, high)
  {
    var buffer := new int[Max(|low|, |high|)](_ => 0);
    var i := 0;
    while i < |low|
      invariant 0 <= i <= |low|
      invariant forall k :: 0 <= k < buffer.Length ==> buffer[k] == if k < i then low[k] else 0
    {
      buffer[i] := buffer[i] + low[i];
      i := i + 1;
    }
    i := 0;
    while i < |high|
      invariant 0 <= i <= |high|
      invariant forall k :: 0 <= k < buffer.Length ==> buffer[k] == Coef(low, k) + if k < i then high[k] else 0
    {
      buffer[i] := buffer[i] + high[i];
      i := i + 1;
    }
    sum := buffer[..];
  }

  /** `z4`: a copy of z2 with z1 and then z0 subtracted entry by entry. */
  method Middle(z2: seq<int>, z1: seq<int>, z0: seq<int>) returns (z4: seq<int>)
    requires |z1| <= |z2| && |z0| <= |z2|
    ensures z4 == SubCoef(SubCoef(z2, z1), z0)
  {
    var buffer := new int[|z2|](k requires 0 <= k < |z2| => z2[k]);
    var i := 0;
    while i < |z1|
      invariant 0 <= i <= |z1|
      invariant forall k :: 0 <= k < buffer.Length ==> buffer[k] == z2[k] - if k < i then z1[k] else 0
    {
      buffer[i] := buffer[i] - z1[i];
      i := i + 1;
    }
    i := 0;
    while i < |z0|
      invariant 0 <= i <= |z0|
      invariant forall k :: 0 <= k < buffer.Length ==> buffer[k] == z2[k] - Coef(z1, k) - if k < i then z0[k] else 0
    {
      buffer[i] := buffer[i] - z0[i];
      i := i + 1;
    }
    z4 := buffer[..];
  }

  /** `karatsuba(span A, span B)` on views of equal length n: exactly the 2n-1 product coefficients. */
  method Karatsuba(A: seq<int>, B: seq<int>) returns (r: seq<int>)
    requires |A| == |B| >= 1
    ensures r == Product(A, B)
    decreases |A|
  {
    var n := |A|;
    if n < 65 {
      r := DirectProduct(A, B);
      return;
    }
    var mid := n / 2;
    var A0, A1, B0, B1 := A[..mid], A[mid..], B[..mid], B[mid..];
    var A0A1 := SumHalves(A0, A1);
    var B0B1 := SumHalves(B0, B1);
    var z0 := Karatsuba(A0, B0);
    var z1 := Karatsuba(A1, B1);
    var z2 := Karatsuba(A0A1, B0B1);
    var z4 := Middle(z2, z1, z0);
    var result := Recombination(z0, z4, z1, mid, n);
    MiddleCoefs(z0, z1, z2, SubCoef(z2, z1), z4);
    RecombineAll(A, B, mid, z0, z1, z2, z4, result);
    r := result;
  }

  /** The polynomial the span `karatsuba_mult` returns: the product of the padded vectors, degree 2·max(deg). */
  ghost function MultAsWritten(p1: Polynomial, p2: Polynomial): (r: Polynomial)
    ensures r.degree == 2 * Max(p1.degree, p2.degree)
    ensures forall k :: 0 <= k < |r.coefficients| ==>
      r.coefficients[k] == ConvAt(p1.coefficients, p2.coefficients, k)
  {
    var size := Max(p1.degree, p2.degree) + 2;
    assert forall k :: 0 <= k < |Product(Padded(p1.coefficients, size), Padded(p2.coefficients, size))| ==>
      Product(Padded(p1.coefficients, size), Padded(p2.coefficients, size))[k]
        == ConvAt(p1.coefficients, p2.coefficients, k) by {
      forall k | 0 <= k < |Product(Padded(p1.coefficients, size), Padded(p2.coefficients, size))| {
        ConvAtPad(p1.coefficients, Max(0, size - |p1.coefficients|), p2.coefficients, Max(0, size - |p2.coefficients|), k);
      }
    }
    Polynomial(2 * Max(p1.degree, p2.degree), Product(Padded(p1.coefficients, size), Padded(p2.coefficients, size)))
  }

  /**
   * `karatsuba_mult` as written: pads both operands to max(deg)+2 entries,
   * wraps the 2n-1 product coefficients in a `Polynomial` (degree 2n-2) and
   * then lowers the degree by 2, to 2·max(deg1, deg2).
   */
  method KaratsubaMult(p1: Polynomial, p2: Polynomial) returns (r: Polynomial, padded1: Polynomial, padded2: Polynomial)
    requires Valid(p1) && Valid(p2)
    requires |p1.coefficients| <= Max(p1.degree, p2.degree) + 2
    requires |p2.coefficients| <= Max(p1.degree, p2.degree) + 2
    ensures Valid(padded1) && padded1.degree == p1.degree && Value(padded1) == Value(p1)
    ensures Valid(padded2) && padded2.degree == p2.degree && Value(padded2) == Value(p2)
    ensures |padded1.coefficients| == |padded2.coefficients| == Max(p1.degree, p2.degree) + 2
    ensures r == MultAsWritten(p1, p2)
  {
    var x := Max(p1.degree + 1, p2.degree + 1);
    padded1 := PadToSize(p1, x + 1);
    padded2 := PadToSize(p2, x + 1);
    var product := Karatsuba(padded1.coefficients, padded2.coefficients);
    var res := FromVector(product);
    r := Polynomial(res.degree - 2, res.coefficients);
  }

  /** As written, `karatsuba_mult(p1, p2) == p1 * p2` holds exactly when the two degrees are equal. */
  lemma MultAsWrittenSameIff(p1: Polynomial, p2: Polynomial)
    requires Valid(p1) && Valid(p2)
    requires |p1.coefficients| <= Max(p1.degree, p2.degree) + 2
    requires |p2.coefficients| <= Max(p1.degree, p2.degree) + 2
    ensures WellFormed(MultAsWritten(p1, p2))
    ensures Same(MultAsWritten(p1, p2), Times(p1, p2)) <==> p1.degree == p2.degree
  {
    var size := Max(p1.degree, p2.degree) + 2;
    var q1 := Polynomial(p1.degree, Padded(p1.coefficients, size));
    var q2 := Polynomial(p2.degree, Padded(p2.coefficients, size));
    var r := MultAsWritten(p1, p2);
    assert Valid(q1) && Valid(q2);
    if p1.degree == p2.degree {
      assert Value(q1) == Value(p1) && Value(q2) == Value(p2);
      ProductFromVectors(q1, q2, r);
    }
  }

  /** The mismatch on a concrete call: 1 times x reports degree 2 where `p1 * p2` has degree 1. */
  lemma MultAsWrittenUnequalDegrees()
    ensures !Same(MultAsWritten(FromVector([1]), FromVector([0, 1])), Times(FromVector([1]), FromVector([0, 1])))
  {
    MultAsWrittenSameIff(FromVector([1]), FromVector([0, 1]));
  }

  /** `karatsuba_mult` with the degree set to deg1 + deg2, as every other variant does. */
  method KaratsubaMultCorrected(p1: Polynomial, p2: Polynomial) returns (r: Polynomial, padded1: Polynomial, padded2: Polynomial)
    requires Valid(p1) && Valid(p2)
    requires |p1.coefficients| <= Max(p1.degree, p2.degree) + 2
    requires |p2.coefficients| <= Max(p1.degree, p2.degree) + 2
    ensures Valid(padded1) && padded1.degree == p1.degree && Value(padded1) == Value(p1)
    ensures Valid(padded2) && padded2.degree == p2.degree && Value(padded2) == Value(p2)
    ensures Valid(r) && Same(r, Times(p1, p2))
  {
    var x := Max(p1.degree + 1, p2.degree + 1);
    padded1 := PadToSize(p1, x + 1);
    padded2 := PadToSize(p2, x + 1);
    var product := Karatsuba(padded1.coefficients, padded2.coefficients);
    r := Polynomial(p1.degree + p2.degree, product);
    ProductFromVectors(padded1, padded2, r);
  }
}
