/** Polynomials over GF(2) as natural numbers: bit k is the coefficient of x^k. Addition is
    the exclusive or, and multiplication by x is doubling. */
module Gf2 {

  function Pow2(k: nat): (p: nat)
    ensures p >= 1
  {
    if k == 0 then 1 else 2 * Pow2(k - 1)
  }

  /** Multiplication by x^k. */
  function Shl(a: nat, k: nat): nat
    decreases k
  {
    if k == 0 then a else 2 * Shl(a, k - 1)
  }

  function Xor(a: nat, b: nat): nat
    decreases a + b
  {
    if a == 0 then b
    else if b == 0 then a
    else 2 * Xor(a / 2, b / 2) + (if a % 2 == b % 2 then 0 else 1)
  }

  function And(a: nat, b: nat): nat
    decreases a + b
  {
    if a == 0 || b == 0 then 0
    else 2 * And(a / 2, b / 2) + (if a % 2 == 1 && b % 2 == 1 then 1 else 0)
  }

  /** The coefficients from x^k up. */
  function High(v: nat, k: nat): nat
    decreases k
  {
    if k == 0 then v else High(v / 2, k - 1)
  }

  /** The coefficients below x^k. */
  function Low(v: nat, k: nat): nat
    decreases k
  {
    if k == 0 then 0 else v % 2 + 2 * Low(v / 2, k - 1)
  }

  function Bit(v: nat, k: nat): nat { High(v, k) % 2 }

  /** The product of two polynomials. */
  function Mul(q: nat, g: nat): nat
    decreases q
  {
    if q == 0 then 0 else Xor(if q % 2 == 1 then g else 0, 2 * Mul(q / 2, g))
  }

  /** a and b differ by a multiple of g. */
  ghost predicate Congruent(a: nat, b: nat, g: nat) { exists q: nat :: Xor(a, b) == Mul(q, g) }

  /** r is the remainder of the division of p by a polynomial g of degree w. */
  ghost predicate IsRemainder(r: nat, p: nat, g: nat, w: nat) {
    r < Pow2(w) && exists q: nat :: p == Xor(Mul(q, g), r)
  }

  // ----- exclusive or

  /** The defining equation holds for every pair, zeros included. */
  lemma XorStep(a: nat, b: nat)
    ensures Xor(a, b) == 2 * Xor(a / 2, b / 2) + (if a % 2 == b % 2 then 0 else 1)
    ensures Xor(a, b) / 2 == Xor(a / 2, b / 2)
    ensures Xor(a, b) % 2 == if a % 2 == b % 2 then 0 else 1
  {
  }

  lemma XorDigits(x: nat, i: nat, y: nat, j: nat)
    requires i < 2 && j < 2
    ensures Xor(2 * x + i, 2 * y + j) == 2 * Xor(x, y) + (if i == j then 0 else 1)
  {
    XorStep(2 * x + i, 2 * y + j);
    hide Xor;
    assert (2 * x + i) / 2 == x && (2 * y + j) / 2 == y;
  }

  lemma {:induction false} XorSelf(a: nat)
    ensures Xor(a, a) == 0
  {
    if a != 0 {
      XorSelf(a / 2);
    }
  }

  lemma {:induction false} XorCommutes(a: nat, b: nat)
    ensures Xor(a, b) == Xor(b, a)
    decreases a + b
  {
    if a != 0 && b != 0 {
      XorCommutes(a / 2, b / 2);
    }
  }

  lemma {:induction false} XorAssociates(a: nat, b: nat, c: nat)
    ensures Xor(Xor(a, b), c) == Xor(a, Xor(b, c))
    decreases a + b + c
  {
    if a != 0 && b != 0 && c != 0 {
      XorStep(a, b);
      XorStep(b, c);
      XorStep(Xor(a, b), c);
      XorStep(a, Xor(b, c));
      XorAssociates(a / 2, b / 2, c / 2);
    }
  }

  lemma XorZeroRight(a: nat)
    ensures Xor(a, 0) == a
  {
  }

  /** Adding the same polynomial twice changes nothing. */
  lemma XorCancels(a: nat, b: nat)
    ensures Xor(Xor(a, b), b) == a
  {
    XorAssociates(a, b, b);
    XorSelf(b);
  }

  lemma XorZero(a: nat, b: nat)
    ensures Xor(a, b) == 0 <==> a == b
  {
    XorSelf(a);
    if Xor(a, b) == 0 {
      XorCancels(a, b);
    }
  }

  lemma XorDoubles(a: nat, b: nat)
    ensures Xor(2 * a, 2 * b) == 2 * Xor(a, b)
  {
    XorStep(2 * a, 2 * b);
  }

  /** A sum of four, regrouped. */
  lemma XorSwaps(a: nat, b: nat, c: nat, d: nat)
    ensures Xor(Xor(a, b), Xor(c, d)) == Xor(Xor(a, c), Xor(b, d))
  {
    XorAssociates(a, b, Xor(c, d));
    XorAssociates(b, c, d);
    XorCommutes(b, c);
    XorAssociates(c, b, d);
    XorAssociates(a, c, Xor(b, d));
  }

  lemma {:induction false} XorShifts(a: nat, b: nat, k: nat)
    ensures Xor(Shl(a, k), Shl(b, k)) == Shl(Xor(a, b), k)
    decreases k
  {
    if k != 0 {
      XorShifts(a, b, k - 1);
      XorDoubles(Shl(a, k - 1), Shl(b, k - 1));
    }
  }

  lemma {:induction false} XorBound(a: nat, b: nat, k: nat)
    requires a < Pow2(k) && b < Pow2(k)
    ensures Xor(a, b) < Pow2(k)
    decreases k
  {
    if k != 0 {
      XorStep(a, b);
      XorBound(a / 2, b / 2, k - 1);
    }
  }

  /** Adding a polynomial of smaller degree keeps the degree. */
  lemma XorKeepsDegree(a: nat, b: nat, k: nat)
    requires b < Pow2(k) <= a
    ensures Pow2(k) <= Xor(a, b)
  {
    if Xor(a, b) < Pow2(k) {
      XorBound(Xor(a, b), b, k);
      XorCancels(a, b);
    }
  }

  lemma ShlNext(v: nat, k: nat)
    ensures Shl(v, k + 1) == 2 * Shl(v, k)
  {
  }

  lemma PowNext(k: nat)
    ensures Pow2(k + 1) == 2 * Pow2(k)
  {
  }

  lemma {:induction false} ShlInside(a: nat, k: nat)
    ensures Shl(2 * a, k) == 2 * Shl(a, k)
    decreases k
  {
    if k != 0 {
      ShlInside(a, k - 1);
    }
  }

  lemma {:induction false} ShlAdds(a: nat, j: nat, k: nat)
    ensures Shl(Shl(a, j), k) == Shl(a, j + k)
    decreases k
  {
    if k != 0 {
      ShlAdds(a, j, k - 1);
    }
  }

  lemma {:induction false} ShlBound(a: nat, j: nat, k: nat)
    requires a < Pow2(j)
    ensures Shl(a, k) < Pow2(j + k)
    decreases k
  {
    if k != 0 {
      ShlBound(a, j, k - 1);
    }
  }

  lemma {:induction false} ShlOne(k: nat)
    ensures Shl(1, k) == Pow2(k)
    decreases k
  {
    if k != 0 {
      ShlOne(k - 1);
    }
  }

  lemma {:induction false} ShlZero(a: nat, k: nat)
    ensures Shl(a, k) == 0 <==> a == 0
    decreases k
  {
    if k != 0 {
      ShlZero(a, k - 1);
    }
  }

  lemma {:induction false} ShlSum(a: nat, b: nat, k: nat)
    ensures Shl(a + b, k) == Shl(a, k) + Shl(b, k)
    decreases k
  {
    if k != 0 {
      ShlSum(a, b, k - 1);
    }
  }

  /** The high and the low parts of two numbers add up separately. */
  lemma {:induction false} XorHalves(a: nat, b: nat, r: nat, s: nat, k: nat)
    requires r < Pow2(k) && s < Pow2(k)
    ensures Xor(Shl(a, k) + r, Shl(b, k) + s) == Shl(Xor(a, b), k) + Xor(r, s)
    decreases k
  {
    hide *;
    if k == 0 {
      ShlNone(a);
      ShlNone(b);
      ShlNone(Xor(a, b));
      PowZero();
      XorZeroRight(0);
    } else {
      PowNext(k - 1);
      ShlNext(a, k - 1);
      ShlNext(b, k - 1);
      ShlNext(Xor(a, b), k - 1);
      XorHalves(a, b, r / 2, s / 2, k - 1);
      XorDigits(Shl(a, k - 1) + r / 2, r % 2, Shl(b, k - 1) + s / 2, s % 2);
      XorDigits(r / 2, r % 2, s / 2, s % 2);
    }
  }

  lemma ShlNone(a: nat)
    ensures Shl(a, 0) == a
  {
  }

  lemma PowZero()
    ensures Pow2(0) == 1
  {
  }

  /** Without a common position, the exclusive or is the ordinary sum. */
  lemma XorIsSum(a: nat, r: nat, k: nat)
    requires r < Pow2(k)
    ensures Xor(Shl(a, k), r) == Shl(a, k) + r
  {
    XorHalves(a, 0, 0, r, k);
    ShlZero(0, k);
    XorCommutes(a, 0);
  }

  // ----- high and low parts

  lemma {:induction false} Split(v: nat, k: nat)
    ensures v == Shl(High(v, k), k) + Low(v, k) && Low(v, k) < Pow2(k)
    decreases k
  {
    if k != 0 {
      Split(v / 2, k - 1);
    }
  }

  lemma {:induction false} SplitIsUnique(a: nat, r: nat, k: nat)
    requires r < Pow2(k)
    ensures High(Shl(a, k) + r, k) == a && Low(Shl(a, k) + r, k) == r
    decreases k
  {
    if k != 0 {
      SplitIsUnique(a, r / 2, k - 1);
    }
  }

  /** Masking with 2^k - 1 keeps the low part. */
  lemma {:induction false} AndMask(v: nat, k: nat)
    ensures And(v, Pow2(k) - 1) == Low(v, k)
    decreases k
  {
    if k != 0 {
      AndMask(v / 2, k - 1);
      assert (Pow2(k) - 1) / 2 == Pow2(k - 1) - 1 && (Pow2(k) - 1) % 2 == 1;
      if v == 0 {
        LowZero(k);
      }
    }
  }

  lemma {:induction false} LowZero(k: nat)
    ensures Low(0, k) == 0
  {
    if k != 0 {
      LowZero(k - 1);
    }
  }

  /** Testing one bit. */
  lemma {:induction false} AndBit(v: nat, k: nat)
    ensures And(v, Pow2(k)) == Shl(Bit(v, k), k)
    decreases k
  {
    if k == 0 {
      assert And(v / 2, 0) == 0;
    } else {
      AndBit(v / 2, k - 1);
      if v == 0 {
        HighZero(k);
        ShlZero(0, k);
      }
    }
  }

  lemma {:induction false} HighZero(k: nat)
    ensures High(0, k) == 0
  {
    if k != 0 {
      HighZero(k - 1);
    }
  }

  /** Numbers with the same bits below k, and nothing above, are equal. */
  lemma {:induction false} SameBits(a: nat, b: nat, k: nat)
    requires a < Pow2(k) && b < Pow2(k)
    requires forall i :: 0 <= i < k ==> Bit(a, i) == Bit(b, i)
    ensures a == b
    decreases k
  {
    if k != 0 {
      assert Bit(a, 0) == Bit(b, 0);
      forall i | 0 <= i < k - 1 ensures Bit(a / 2, i) == Bit(b / 2, i) {
        assert Bit(a, i + 1) == Bit(b, i + 1);
      }
      SameBits(a / 2, b / 2, k - 1);
    }
  }

  // ----- products and congruence

  lemma MulDoubles(q: nat, g: nat)
    ensures Mul(2 * q, g) == 2 * Mul(q, g)
  {
  }

  lemma MulStep(q: nat, g: nat)
    ensures Mul(q, g) == Xor(if q % 2 == 1 then g else 0, 2 * Mul(q / 2, g))
  {
  }

  lemma {:induction false} MulDistributes(p: nat, q: nat, g: nat)
    ensures Mul(Xor(p, q), g) == Xor(Mul(p, g), Mul(q, g))
    decreases p + q
  {
    if p != 0 && q != 0 {
      var s, t := if p % 2 == 1 then g else 0, if q % 2 == 1 then g else 0;
      XorStep(p, q);
      MulStep(Xor(p, q), g);
      MulDistributes(p / 2, q / 2, g);
      XorDoubles(Mul(p / 2, g), Mul(q / 2, g));
      XorSwaps(s, 2 * Mul(p / 2, g), t, 2 * Mul(q / 2, g));
      XorSelf(g);
    }
  }

  lemma MulOne(g: nat)
    ensures Mul(1, g) == g
  {
    assert Mul(0, g) == 0;
    XorCommutes(g, 0);
  }

  /** A nonzero multiple of a polynomial of degree w has degree at least w. */
  lemma {:induction false} MulDegree(q: nat, g: nat, w: nat)
    requires q > 0 && Pow2(w) <= g < Pow2(w + 1)
    ensures Pow2(w) <= Mul(q, g)
    decreases q
  {
    if q == 1 {
      MulOne(g);
    } else {
      MulDegree(q / 2, g, w);
      var s := if q % 2 == 1 then g else 0;
      XorCommutes(s, 2 * Mul(q / 2, g));
      XorKeepsDegree(2 * Mul(q / 2, g), s, w + 1);
    }
  }

  /** A polynomial has one remainder only. */
  lemma RemainderIsUnique(r: nat, s: nat, p: nat, g: nat, w: nat)
    requires Pow2(w) <= g < Pow2(w + 1)
    requires IsRemainder(r, p, g, w) && IsRemainder(s, p, g, w)
    ensures r == s
  {
    var q: nat :| p == Xor(Mul(q, g), r);
    var t: nat :| p == Xor(Mul(t, g), s);
    XorSwaps(Mul(q, g), r, Mul(t, g), s);
    XorSelf(p);
    MulDistributes(q, t, g);
    assert Xor(Mul(Xor(q, t), g), Xor(r, s)) == 0;
    XorZero(Mul(Xor(q, t), g), Xor(r, s));
    XorBound(r, s, w);
    if Xor(q, t) > 0 {
      MulDegree(Xor(q, t), g, w);
    }
    assert Mul(0, g) == 0;
    XorZero(r, s);
  }

  lemma CongruentRefl(a: nat, g: nat)
    ensures Congruent(a, a, g)
  {
    XorSelf(a);
    assert Mul(0, g) == 0;
  }

  lemma CongruentTrans(a: nat, b: nat, c: nat, g: nat)
    requires Congruent(a, b, g) && Congruent(b, c, g)
    ensures Congruent(a, c, g)
  {
    var p: nat :| Xor(a, b) == Mul(p, g);
    var q: nat :| Xor(b, c) == Mul(q, g);
    MulDistributes(p, q, g);
    XorAssociates(a, b, Xor(b, c));
    XorAssociates(b, b, c);
    XorSelf(b);
    assert Xor(a, c) == Mul(Xor(p, q), g);
  }

  lemma CongruentAdd(a: nat, b: nat, c: nat, g: nat)
    requires Congruent(a, b, g)
    ensures Congruent(Xor(a, c), Xor(b, c), g)
  {
    var q: nat :| Xor(a, b) == Mul(q, g);
    XorSwaps(a, c, b, c);
    XorSelf(c);
    XorCommutes(Xor(a, b), 0);
    assert Xor(Xor(a, c), Xor(b, c)) == Mul(q, g);
  }

  lemma CongruentDouble(a: nat, b: nat, g: nat)
    requires Congruent(a, b, g)
    ensures Congruent(2 * a, 2 * b, g)
  {
    var q: nat :| Xor(a, b) == Mul(q, g);
    XorDoubles(a, b);
    MulDoubles(q, g);
    assert Xor(2 * a, 2 * b) == Mul(2 * q, g);
  }

  lemma {:induction false} CongruentShift(a: nat, b: nat, g: nat, k: nat)
    requires Congruent(a, b, g)
    ensures Congruent(Shl(a, k), Shl(b, k), g)
    decreases k
  {
    if k != 0 {
      CongruentShift(a, b, g, k - 1);
      CongruentDouble(Shl(a, k - 1), Shl(b, k - 1), g);
    }
  }

  lemma CongruentIsRemainder(r: nat, p: nat, g: nat, w: nat)
    requires Congruent(r, p, g) && r < Pow2(w)
    ensures IsRemainder(r, p, g, w)
  {
    var q: nat :| Xor(r, p) == Mul(q, g);
    XorCommutes(r, p);
    XorCancels(p, r);
    assert p == Xor(Mul(q, g), r);
  }
}
