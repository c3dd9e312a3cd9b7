/**
 * The `shared_ptr`-backed `Polynomial` of lab5/lab5_opt_ptr.cpp.  Here the
 * coefficient vector is a heap object that several polynomials may hold at
 * once: constructing from a pointer shares it, while the copy constructor and
 * copy assignment make a fresh copy.  `padToSize` grows the shared vector in
 * place, so every holder sees the padding.
 *
 * The operators, `karatsuba` and the windowed product run the same loops as the
 * vector-backed model on the coefficients read through the pointer; each
 * result is wrapped in a freshly allocated vector.
 */
module PolyShared {
  import opened PolySpec
  import PolyVector

  /** A `std::vector<int>` on the heap, reached through a `shared_ptr`. */
  class IntVector {
    var elems: array<int>

    constructor (items: seq<int>)
      ensures fresh(elems) && elems[..] == items
    {
      elems := new int[|items|](k requires 0 <= k < |items| => items[k]);
    }
  }

  class Polynomial {
    var degree: int
    var coefficients: IntVector

    /** The value this polynomial denotes right now, read through its pointer. */
    function Snapshot(): PolyVector.Polynomial
      reads this, coefficients, coefficients.elems
    {
      PolyVector.Polynomial(degree, coefficients.elems[..])
    }

    /** `Polynomial()`: degree 0 over a fresh, empty vector. */
    constructor Empty()
      ensures degree == 0 && fresh(coefficients) && fresh(coefficients.elems) && coefficients.elems[..] == []
    {
      degree := 0;
      coefficients := new IntVector([]);
    }

    /** `Polynomial(shared_ptr)`: shares the caller's vector; the degree is its size minus one. */
    constructor Share(v: IntVector)
      ensures coefficients == v && degree == v.elems.Length - 1
    {
      coefficients := v;
      degree := v.elems.Length - 1;
    }

    /** The copy constructor: the same degree over a fresh copy of the other's vector. */
    constructor Copy(other: Polynomial)
      ensures degree == other.degree && fresh(coefficients) && fresh(coefficients.elems)
      ensures coefficients.elems[..] == other.coefficients.elems[..]
    {
      degree := other.degree;
      coefficients := new IntVector(other.coefficients.elems[..]);
    }

    /** Copy assignment: a fresh copy of the other's vector, and nothing at all on self-assignment. */
    method Assign(other: Polynomial)
      modifies this
      ensures other == this ==> degree == old(degree) && coefficients == old(coefficients)
      ensures other != this ==> (degree == other.degree && fresh(coefficients) && fresh(coefficients.elems)
        && coefficients.elems[..] == other.coefficients.elems[..])
    {
      if other != this {
        degree := other.degree;
        coefficients := new IntVector(other.coefficients.elems[..]);
      }
    }

    method SetDegree(d: int)
      modifies this
      ensures degree == d && coefficients == old(coefficients)
    {
      degree := d;
    }

    /**
     * `padToSize(size)`: grows the shared vector with zeros up to `size`
     * entries.  The vector object stays the same, so every polynomial holding
     * it sees the new entries; the degree is untouched.
     */
    method PadToSize(size: int)
      modifies coefficients
      ensures coefficients.elems[..] == Padded(old(coefficients.elems[..]), size)
      ensures fresh(coefficients.elems) || coefficients.elems == old(coefficients.elems)
    {
      var current := coefficients.elems;
      if size > current.Length {
        var grown := new int[size];
        forall k | 0 <= k < size {
          grown[k] := if k < current.Length then current[k] else 0;
        }
        coefficients.elems := grown;
        assert grown[..] == current[..] + Zeros(size - current.Length);
      }
    }

    /** `operator+` read through both pointers. */
    method Add(other: Polynomial) returns (r: Polynomial)
      requires PolyVector.WellFormed(Snapshot()) && PolyVector.WellFormed(other.Snapshot())
      ensures fresh(r) && fresh(r.coefficients) && fresh(r.coefficients.elems)
      ensures r.Snapshot() == PolyVector.Plus(Snapshot(), other.Snapshot())
    {
      var sum := PolyVector.Add(Snapshot(), other.Snapshot());
      r := Wrap(sum);
    }

    /** `operator-` read through both pointers. */
    method Sub(other: Polynomial) returns (r: Polynomial)
      requires PolyVector.WellFormed(Snapshot()) && PolyVector.WellFormed(other.Snapshot())
      ensures fresh(r) && fresh(r.coefficients) && fresh(r.coefficients.elems)
      ensures r.Snapshot() == PolyVector.Minus(Snapshot(), other.Snapshot())
    {
      var difference := PolyVector.Sub(Snapshot(), other.Snapshot());
      r := Wrap(difference);
    }

    /** `operator*` read through both pointers. */
    method Mul(other: Polynomial) returns (r: Polynomial)
      requires PolyVector.WellFormed(Snapshot()) && PolyVector.WellFormed(other.Snapshot())
      ensures fresh(r) && fresh(r.coefficients) && fresh(r.coefficients.elems)
      ensures r.Snapshot() == PolyVector.Times(Snapshot(), other.Snapshot())
    {
      var product := PolyVector.Mul(Snapshot(), other.Snapshot());
      r := Wrap(product);
    }

    /** `operator==`: the degree fields, then the coefficients up to them. */
    method Equals(other: Polynomial) returns (eq: bool)
      requires PolyVector.WellFormed(Snapshot()) && PolyVector.WellFormed(other.Snapshot())
      ensures eq <==> PolyVector.Same(Snapshot(), other.Snapshot())
    {
      eq := PolyVector.Equals(Snapshot(), other.Snapshot());
    }

    /** `operator!=`: the negation of `==`. */
    method NotEquals(other: Polynomial) returns (ne: bool)
      requires PolyVector.WellFormed(Snapshot()) && PolyVector.WellFormed(other.Snapshot())
      ensures ne <==> !PolyVector.Same(Snapshot(), other.Snapshot())
    {
      var eq := Equals(other);
      ne := !eq;
    }
  }

  /** `Polynomial(make_shared<vector<int>>(...))` followed by `setDegree`, from a computed value. */
  method Wrap(p: PolyVector.Polynomial) returns (r: Polynomial)
    ensures fresh(r) && fresh(r.coefficients) && fresh(r.coefficients.elems) && r.Snapshot() == p
  {
    var v := new IntVector(p.coefficients);
    r := new Polynomial.Share(v);
    r.SetDegree(p.degree);
  }

  /** `karatsuba(p1, p2)` on two equally long shared vectors, with the lab5_opt cutoff of 65. */
  method Karatsuba(p1: Polynomial, p2: Polynomial) returns (r: Polynomial)
    requires PolyVector.Valid(p1.Snapshot()) && PolyVector.Valid(p2.Snapshot())
    requires p1.coefficients.elems.Length == p2.coefficients.elems.Length
    ensures fresh(r) && fresh(r.coefficients) && fresh(r.coefficients.elems)
    ensures PolyVector.Valid(r.Snapshot()) && r.degree == p1.degree + p2.degree
    ensures PolyVector.Value(r.Snapshot()) == Product(PolyVector.Value(p1.Snapshot()), PolyVector.Value(p2.Snapshot()))
  {
    var product := PolyVector.Karatsuba(p1.Snapshot(), p2.Snapshot(), PolyVector.OptCutoff);
    r := Wrap(product);
  }

  /**
   * `karatsuba_mult(p1, p2)`: pads both shared vectors in place to max(deg)+2
   * entries (a vector both operands share is padded once), then multiplies.
   */
  method KaratsubaMult(p1: Polynomial, p2: Polynomial) returns (r: Polynomial)
    requires PolyVector.Valid(p1.Snapshot()) && PolyVector.Valid(p2.Snapshot())
    requires p1.coefficients.elems.Length <= Max(p1.degree, p2.degree) + 2
    requires p2.coefficients.elems.Length <= Max(p1.degree, p2.degree) + 2
    modifies p1.coefficients, p2.coefficients
    ensures p1.coefficients.elems[..] == Padded(old(p1.coefficients.elems[..]), Max(p1.degree, p2.degree) + 2)
    ensures p2.coefficients.elems[..] == Padded(old(p2.coefficients.elems[..]), Max(p1.degree, p2.degree) + 2)
    ensures fresh(r) && PolyVector.Valid(r.Snapshot())
    ensures PolyVector.Same(r.Snapshot(), PolyVector.Times(old(p1.Snapshot()), old(p2.Snapshot())))
  {
    ghost var before1, before2 := p1.Snapshot(), p2.Snapshot();
    var x := Max(p1.degree + 1, p2.degree + 1);
    PadBoth(p1, p2, x + 1);
    PaddingKeepsValue(before1, p1.Snapshot(), x + 1);
    PaddingKeepsValue(before2, p2.Snapshot(), x + 1);
    r := Karatsuba(p1, p2);
    KaratsubaIsTimes(before1, before2, r.Snapshot());
  }

  /** The two `padToSize` calls of `karatsuba_mult`, on possibly the same shared vector. */
  method PadBoth(p1: Polynomial, p2: Polynomial, size: int)
    modifies p1.coefficients, p2.coefficients
    ensures p1.coefficients.elems[..] == Padded(old(p1.coefficients.elems[..]), size)
    ensures p2.coefficients.elems[..] == Padded(old(p2.coefficients.elems[..]), size)
  {
    ghost var items1 := p1.coefficients.elems[..];
    p1.PadToSize(size);
    ghost var after1 := p1.coefficients.elems[..];
    p2.PadToSize(size);
    if p1.coefficients == p2.coefficients {
      PaddedTwice(items1, size);
    } else {
      assert p1.coefficients.elems[..] == after1;
    }
  }

  /** A product whose meaningful coefficients are those of `Times` is the same polynomial. */
  lemma KaratsubaIsTimes(p1: PolyVector.Polynomial, p2: PolyVector.Polynomial, r: PolyVector.Polynomial)
    requires PolyVector.Valid(p1) && PolyVector.Valid(p2) && PolyVector.Valid(r)
    requires r.degree == p1.degree + p2.degree
    requires PolyVector.Value(r) == Product(PolyVector.Value(p1), PolyVector.Value(p2))
    ensures PolyVector.Same(r, PolyVector.Times(p1, p2))
  {
  }

  lemma PaddedTwice(s: seq<int>, size: int)
    ensures Padded(Padded(s, size), size) == Padded(s, size)
  {
    assert Zeros(0) == [];
  }

  /** Padding keeps a valid polynomial valid, with the same meaningful coefficients. */
  lemma PaddingKeepsValue(before: PolyVector.Polynomial, after: PolyVector.Polynomial, size: int)
    requires PolyVector.Valid(before)
    requires after.degree == before.degree && after.coefficients == Padded(before.coefficients, size)
    ensures PolyVector.Valid(after) && PolyVector.Value(after) == PolyVector.Value(before)
    ensures |after.coefficients| == Max(size, |before.coefficients|)
  {
    assert after.coefficients[..after.degree + 1] == before.coefficients[..before.degree + 1];
  }

  /**
   * `segmentMultiplication` into a shared result vector: adds the product terms
   * of degree k to cell k for k in [lo, hi).  The result vector is a different
   * object from either operand's.
   */
  method SegmentMultiplication(p1: Polynomial, p2: Polynomial, result: IntVector, lo: int, hi: int)
    requires PolyVector.WellFormed(p1.Snapshot()) && PolyVector.WellFormed(p2.Snapshot())
    requires result.elems != p1.coefficients.elems && result.elems != p2.coefficients.elems
    requires Max(lo, 0) < Min(hi, p1.degree + p2.degree + 1) ==>
      Min(hi, p1.degree + p2.degree + 1) <= result.elems.Length
    modifies result.elems
    ensures forall k :: 0 <= k < result.elems.Length ==>
      result.elems[k] == old(result.elems[k])
        + if lo <= k < hi then ConvAt(PolyVector.Value(p1.Snapshot()), PolyVector.Value(p2.Snapshot()), k) else 0
  {
    PolyVector.SegmentMultiplication(p1.Snapshot(), p2.Snapshot(), result.elems, lo, hi);
  }

  /** `polynomialMultiplicationMT`: the lab5 windows over a fresh shared vector of deg1+deg2+1 zeros. */
  method PolynomialMultiplicationMT(p1: Polynomial, p2: Polynomial) returns (r: Polynomial)
    requires PolyVector.WellFormed(p1.Snapshot()) && PolyVector.WellFormed(p2.Snapshot())
    ensures fresh(r) && r.Snapshot() == PolyVector.Times(p1.Snapshot(), p2.Snapshot())
  {
    var m := p1.degree + p2.degree + 1;
    var result := new IntVector(Zeros(m));
    PolyVector.RunWindows(p1.Snapshot(), p2.Snapshot(), result.elems, PolyVector.PoolIncrement(m));
    r := new Polynomial.Share(result);
  }
}
