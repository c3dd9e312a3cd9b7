/**
 * Coefficient sequences and their product, the common specification of every
 * polynomial multiplication in lab5 and lab7.
 *
 * A coefficient sequence `s` stands for the polynomial Σ s[k]·x^k; reading it
 * at an index outside `s` gives 0.  `ConvAt(a, b, k)` is Σ_{i+j=k} a[i]·b[j],
 * the k-th coefficient of the product, and `Product(a, b)` lists those
 * coefficients for k = 0 .. |a|+|b|-2.  Integers are unbounded here; the
 * identities below are ring identities over the integers.
 */
module PolySpec {

  function Max(x: int, y: int): int
  {
    if x < y then y else x
  }

  function Min(x: int, y: int): int
  {
    if x < y then x else y
  }

  /** Coefficient k of `s`, zero outside the sequence. */
  function Coef(s: seq<int>, k: int): int
  {
    if 0 <= k < |s| then s[k] else 0
  }

  function Tail(s: seq<int>): seq<int>
  {
    if s == [] then [] else s[1..]
  }

  function Zeros(n: nat): (r: seq<int>)
    ensures |r| == n && forall k :: 0 <= k < n ==> r[k] == 0
  {
    seq(n, _ => 0)
  }

  /** Σ_i a[i]·b[k-i]: the k-th coefficient of the product of `a` and `b`. */
  function ConvAt(a: seq<int>, b: seq<int>, k: int): int
    decreases |a|
  {
    if a == [] then 0 else a[0] * Coef(b, k) + ConvAt(a[1..], b, k - 1)
  }

  /** `s` followed by zeros up to `size` entries; a longer `s` is kept whole. */
  function Padded(s: seq<int>, size: int): seq<int>
  {
    s + Zeros(Max(0, size - |s|))
  }

  /** The coefficients of the product, one per degree 0 .. |a|+|b|-2. */
  function Product(a: seq<int>, b: seq<int>): (r: seq<int>)
    ensures |r| == if a == [] || b == [] then 0 else |a| + |b| - 1
  {
    if a == [] || b == [] then [] else seq(|a| + |b| - 1, k => ConvAt(a, b, k))
  }

  /** Coefficient-wise sum, as long as the longer operand. */
  function AddCoef(a: seq<int>, b: seq<int>): (r: seq<int>)
    ensures |r| == Max(|a|, |b|)
  {
    seq(Max(|a|, |b|), k => Coef(a, k) + Coef(b, k))
  }

  /** Coefficient-wise difference, as long as the longer operand. */
  function SubCoef(a: seq<int>, b: seq<int>): (r: seq<int>)
    ensures |r| == Max(|a|, |b|)
  {
    seq(Max(|a|, |b|), k => Coef(a, k) - Coef(b, k))
  }

  // ---------------------------------------------------------------------------
  // Reading coefficients

  lemma CoefAdd(a: seq<int>, b: seq<int>, k: int)
    ensures Coef(AddCoef(a, b), k) == Coef(a, k) + Coef(b, k)
  {
  }

  lemma CoefSub(a: seq<int>, b: seq<int>, k: int)
    ensures Coef(SubCoef(a, b), k) == Coef(a, k) - Coef(b, k)
  {
  }

  lemma CoefConcat(a: seq<int>, b: seq<int>, k: int)
    ensures Coef(a + b, k) == Coef(a, k) + Coef(b, k - |a|)
  {
  }

  lemma CoefProduct(a: seq<int>, b: seq<int>, k: int)
    ensures Coef(Product(a, b), k) == ConvAt(a, b, k)
  {
    if a == [] {
    } else if b == [] {
      assert b == Zeros(0);
      ConvAtZerosRight(a, 0, k);
    } else if !(0 <= k < |Product(a, b)|) {
      ConvAtOutside(a, b, k);
    }
  }

  /** Subtracting what was added gives back the first operand, coefficient by coefficient. */
  lemma AddThenSub(a: seq<int>, b: seq<int>)
    ensures forall k :: Coef(SubCoef(AddCoef(a, b), b), k) == Coef(a, k)
  {
    forall k ensures Coef(SubCoef(AddCoef(a, b), b), k) == Coef(a, k) {
      CoefSub(AddCoef(a, b), b, k);
      CoefAdd(a, b, k);
    }
  }

  /** Trailing zeros do not change the polynomial a sequence stands for. */
  lemma CoefPad(a: seq<int>, n: nat, k: int)
    ensures Coef(a + Zeros(n), k) == Coef(a, k)
  {
  }

  // ---------------------------------------------------------------------------
  // The convolution

  lemma ConvAtUnfold(a: seq<int>, b: seq<int>, k: int)
    ensures ConvAt(a, b, k) == Coef(a, 0) * Coef(b, k) + ConvAt(Tail(a), b, k - 1)
  {
  }

  /** The product has no coefficient below degree 0 or above |a|+|b|-2. */
  lemma {:induction false} ConvAtOutside(a: seq<int>, b: seq<int>, k: int)
    requires k < 0 || k >= |a| + |b| - 1
    ensures ConvAt(a, b, k) == 0
    decreases |a|
  {
    if a != [] {
      ConvAtOutside(a[1..], b, k - 1);
    }
  }

  /** Splitting the left operand: (a0 + x^|a0|·a1)·b = a0·b + x^|a0|·(a1·b). */
  lemma {:induction false} ConvAtSplitLeft(a0: seq<int>, a1: seq<int>, b: seq<int>, k: int)
    ensures ConvAt(a0 + a1, b, k) == ConvAt(a0, b, k) + ConvAt(a1, b, k - |a0|)
    decreases |a0|
  {
    if a0 == [] {
      assert a0 + a1 == a1;
    } else {
      assert (a0 + a1)[1..] == a0[1..] + a1;
      ConvAtSplitLeft(a0[1..], a1, b, k - 1);
    }
  }

  /** Splitting the right operand: a·(b0 + x^|b0|·b1) = a·b0 + x^|b0|·(a·b1). */
  lemma {:induction false} ConvAtSplitRight(a: seq<int>, b0: seq<int>, b1: seq<int>, k: int)
    ensures ConvAt(a, b0 + b1, k) == ConvAt(a, b0, k) + ConvAt(a, b1, k - |b0|)
    decreases |a|
  {
    if a != [] {
      CoefConcat(b0, b1, k);
      ConvAtSplitRight(a[1..], b0, b1, k - 1);
    }
  }

  lemma {:induction false} ConvAtZerosLeft(n: nat, b: seq<int>, k: int)
    ensures ConvAt(Zeros(n), b, k) == 0
    decreases n
  {
    if n > 0 {
      assert Zeros(n)[1..] == Zeros(n - 1);
      ConvAtZerosLeft(n - 1, b, k - 1);
    }
  }

  lemma {:induction false} ConvAtZerosRight(a: seq<int>, n: nat, k: int)
    ensures ConvAt(a, Zeros(n), k) == 0
    decreases |a|
  {
    if a != [] {
      ConvAtZerosRight(a[1..], n, k - 1);
    }
  }

  /** Padding either operand with zeros leaves every product coefficient unchanged. */
  lemma ConvAtPad(a: seq<int>, m: nat, b: seq<int>, n: nat, k: int)
    ensures ConvAt(a + Zeros(m), b + Zeros(n), k) == ConvAt(a, b, k)
  {
    ConvAtSplitLeft(a, Zeros(m), b + Zeros(n), k);
    ConvAtZerosLeft(m, b + Zeros(n), k - |a|);
    ConvAtSplitRight(a, b, Zeros(n), k);
    ConvAtZerosRight(a, n, k - |b|);
  }

  lemma TailAdd(a: seq<int>, c: seq<int>)
    ensures Tail(AddCoef(a, c)) == AddCoef(Tail(a), Tail(c))
  {
    var s, t := Tail(AddCoef(a, c)), AddCoef(Tail(a), Tail(c));
    assert |s| == |t|;
    forall k | 0 <= k < |s| ensures s[k] == t[k] {
      assert s[k] == Coef(a, k + 1) + Coef(c, k + 1);
    }
  }

  /** The product is linear in its left operand. */
  lemma {:induction false} ConvAtAddLeft(a: seq<int>, c: seq<int>, b: seq<int>, k: int)
    ensures ConvAt(AddCoef(a, c), b, k) == ConvAt(a, b, k) + ConvAt(c, b, k)
    decreases |a| + |c|
  {
    var s := AddCoef(a, c);
    if s != [] {
      TailAdd(a, c);
      CoefAdd(a, c, 0);
      ConvAtAddLeft(Tail(a), Tail(c), b, k - 1);
      ConvAtUnfold(a, b, k);
      ConvAtUnfold(c, b, k);
      ConvAtUnfold(s, b, k);
    }
  }

  /** The product is linear in its right operand. */
  lemma {:induction false} ConvAtAddRight(a: seq<int>, b: seq<int>, c: seq<int>, k: int)
    ensures ConvAt(a, AddCoef(b, c), k) == ConvAt(a, b, k) + ConvAt(a, c, k)
    decreases |a|
  {
    if a != [] {
      CoefAdd(b, c, k);
      ConvAtAddRight(a[1..], b, c, k - 1);
    }
  }

  lemma ConvAtSingleton(x: int, b: seq<int>, k: int)
    ensures ConvAt([x], b, k) == x * Coef(b, k)
  {
  }

  lemma {:induction false} ConvAtSingletonRight(a: seq<int>, y: int, k: int)
    ensures ConvAt(a, [y], k) == y * Coef(a, k)
    decreases |a|
  {
    if a != [] {
      ConvAtSingletonRight(a[1..], y, k - 1);
    }
  }

  /** The product is commutative. */
  lemma {:induction false} ConvAtCommutes(a: seq<int>, b: seq<int>, k: int)
    ensures ConvAt(a, b, k) == ConvAt(b, a, k)
    decreases |a| + |b|
  {
    if a == [] {
      ConvAtZerosRight(b, 0, k);
      assert Zeros(0) == [];
    } else if b == [] {
      ConvAtZerosRight(a, 0, k);
      assert Zeros(0) == [];
    } else {
      var x, y := a[0], b[0];
      var a', b' := a[1..], b[1..];
      assert a == [x] + a' && b == [y] + b';
      // a·b = x·b + x·(b shifted) ... written out on both sides
      ConvAtSplitRight(a', [y], b', k - 1);
      ConvAtSingletonRight(a', y, k - 1);
      ConvAtSplitRight(b', [x], a', k - 1);
      ConvAtSingletonRight(b', x, k - 1);
      ConvAtCommutes(a', b', k - 2);
    }
  }

  lemma ProductCommutes(a: seq<int>, b: seq<int>)
    ensures Product(a, b) == Product(b, a)
  {
    forall k | 0 <= k < |Product(a, b)| ensures Product(a, b)[k] == Product(b, a)[k] {
      ConvAtCommutes(a, b, k);
    }
  }

  /**
   * The four-way split behind Karatsuba: with |a0| = |b0| = m,
   * (a0 + x^m a1)(b0 + x^m b1) = a0 b0 + x^m (a0 b1 + a1 b0) + x^2m a1 b1.
   */
  lemma KaratsubaSplit(a0: seq<int>, a1: seq<int>, b0: seq<int>, b1: seq<int>, k: int)
    requires |a0| == |b0|
    ensures ConvAt(a0 + a1, b0 + b1, k)
      == ConvAt(a0, b0, k) + ConvAt(a0, b1, k - |a0|) + ConvAt(a1, b0, k - |a0|)
         + ConvAt(a1, b1, k - 2 * |a0|)
  {
    var m := |a0|;
    ConvAtSplitLeft(a0, a1, b0 + b1, k);
    ConvAtSplitRight(a0, b0, b1, k);
    ConvAtSplitRight(a1, b0, b1, k - m);
  }

  /** The product of the half-sums holds all four partial products. */
  lemma KaratsubaMiddle(a0: seq<int>, a1: seq<int>, b0: seq<int>, b1: seq<int>, j: int)
    ensures ConvAt(AddCoef(a0, a1), AddCoef(b0, b1), j)
      == ConvAt(a0, b0, j) + ConvAt(a0, b1, j) + ConvAt(a1, b0, j) + ConvAt(a1, b1, j)
  {
    ConvAtAddLeft(a0, a1, AddCoef(b0, b1), j);
    ConvAtAddRight(a0, b0, b1, j);
    ConvAtAddRight(a1, b0, b1, j);
  }

  /**
   * Karatsuba's recombination: with z0 = a0·b0, z1 = a1·b1 and
   * z2 = (a0+a1)·(b0+b1), coefficient k of the whole product is
   * z0[k] + (z2 - z1 - z0)[k-m] + z1[k-2m].
   */
  lemma KaratsubaRecombine(a0: seq<int>, a1: seq<int>, b0: seq<int>, b1: seq<int>, k: int)
    requires |a0| == |b0|
    ensures var m := |a0|;
      ConvAt(a0 + a1, b0 + b1, k)
        == ConvAt(a0, b0, k)
           + (ConvAt(AddCoef(a0, a1), AddCoef(b0, b1), k - m) - ConvAt(a1, b1, k - m) - ConvAt(a0, b0, k - m))
           + ConvAt(a1, b1, k - 2 * m)
  {
    KaratsubaSplit(a0, a1, b0, b1, k);
    KaratsubaMiddle(a0, a1, b0, b1, k - |a0|);
  }

  /** Only the first j entries of `a` reach coefficients below j. */
  lemma ConvAtPrefix(a: seq<int>, b: seq<int>, j: nat, k: int)
    requires j <= |a| && k < j
    ensures ConvAt(a, b, k) == ConvAt(a[..j], b, k)
  {
    assert a == a[..j] + a[j..];
    ConvAtSplitLeft(a[..j], a[j..], b, k);
    ConvAtOutside(a[j..], b, k - j);
  }

  /** Extending the left operand by one entry adds one column of terms. */
  lemma ConvAtExtend(a: seq<int>, b: seq<int>, i: nat, k: int)
    requires i < |a|
    ensures ConvAt(a[..i + 1], b, k) == ConvAt(a[..i], b, k) + a[i] * Coef(b, k - i)
  {
    assert a[..i + 1] == a[..i] + [a[i]];
    ConvAtSplitLeft(a[..i], [a[i]], b, k);
  }

  /** The top coefficient of the product is the product of the leading coefficients. */
  lemma ConvAtTop(a: seq<int>, b: seq<int>)
    requires a != [] && b != []
    ensures ConvAt(a, b, |a| + |b| - 2) == a[|a| - 1] * b[|b| - 1]
  {
    var n := |a| - 1;
    assert a == a[..n] + [a[n]];
    ConvAtSplitLeft(a[..n], [a[n]], b, |a| + |b| - 2);
    ConvAtOutside(a[..n], b, |a| + |b| - 2);
  }
}
