/**
  Polynomials over GF(2), kept as natural numbers: bit i of the number is the coefficient of
  x^i. Addition is exclusive or and multiplication is the carry-less product; both are
  unbounded, so this module is the reference against which the fixed-width byte loops of
  gf.h are proved.
 */
module Gf2Poly {

  function Pow2(n: nat): (r: nat)
    ensures r >= 1
  {
    if n == 0 then 1 else 2 * Pow2(n - 1)
  }

  /** The sum of two polynomials: bitwise exclusive or of unbounded numbers. */
  function Xor(a: nat, b: nat): nat
    decreases a + b
  {
    if a == 0 then b
    else if b == 0 then a
    else 2 * Xor(a / 2, b / 2) + (if a % 2 == b % 2 then 0 else 1)
  }

  /** The carry-less product. */
  function Times(a: nat, b: nat): nat
    decreases b
  {
    if b == 0 then 0
    else Xor(if b % 2 == 1 then a else 0, 2 * Times(a, b / 2))
  }

  // ----- Exclusive or is an abelian group in which every element is its own inverse -----

  lemma {:induction false} XorStep(a: nat, b: nat)
    ensures Xor(a, b) == 2 * Xor(a / 2, b / 2) + (if a % 2 == b % 2 then 0 else 1)
  {
  }

  lemma XorHalves(a: nat, b: nat)
    ensures Xor(a, b) / 2 == Xor(a / 2, b / 2)
    ensures Xor(a, b) % 2 == if a % 2 == b % 2 then 0 else 1
  {
    XorStep(a, b);
  }

  /** A number is determined by its half and its last bit. */
  lemma SameHalves(a: nat, b: nat)
    requires a / 2 == b / 2 && a % 2 == b % 2
    ensures a == b
  {
  }

  lemma {:induction false} XorComm(a: nat, b: nat)
    ensures Xor(a, b) == Xor(b, a)
    decreases a + b
  {
    if a != 0 && b != 0 {
      XorComm(a / 2, b / 2);
    }
  }

  lemma {:induction false} XorSelf(a: nat)
    ensures Xor(a, a) == 0
  {
    if a != 0 {
      XorSelf(a / 2);
    }
  }

  lemma {:induction false} XorAssoc(a: nat, b: nat, c: nat)
    ensures Xor(Xor(a, b), c) == Xor(a, Xor(b, c))
    decreases a + b + c
  {
    if a != 0 && b != 0 && c != 0 {
      XorAssoc(a / 2, b / 2, c / 2);
      hide Xor;
      XorHalves(a, b);
      XorHalves(b, c);
      XorHalves(Xor(a, b), c);
      XorHalves(a, Xor(b, c));
      SameHalves(Xor(Xor(a, b), c), Xor(a, Xor(b, c)));
    }
  }

  /** Exchanges the two inner terms of a four-term sum. */
  lemma XorSwap(a: nat, b: nat, c: nat, d: nat)
    ensures Xor(Xor(a, b), Xor(c, d)) == Xor(Xor(a, c), Xor(b, d))
  {
    XorAssoc(a, b, Xor(c, d));
    XorAssoc(b, c, d);
    XorComm(b, c);
    XorAssoc(c, b, d);
    XorAssoc(a, c, Xor(b, d));
  }

  lemma XorCancel(a: nat, b: nat)
    ensures Xor(Xor(a, b), b) == a
    ensures Xor(a, Xor(a, b)) == b
  {
    XorAssoc(a, b, b);
    XorSelf(b);
    XorAssoc(a, a, b);
    XorSelf(a);
    XorZero(a);
  }

  lemma XorZero(a: nat)
    ensures Xor(a, 0) == a && Xor(0, a) == a
  {
  }

  lemma TimesZeroRight(a: nat)
    ensures Times(a, 0) == 0
  {
  }

  lemma XorZeroMeansEqual(a: nat, b: nat)
    requires Xor(a, b) == 0
    ensures a == b
  {
    XorCancel(a, b);
  }

  lemma {:induction false} XorBound(a: nat, b: nat, n: nat)
    requires a < Pow2(n) && b < Pow2(n)
    ensures Xor(a, b) < Pow2(n)
    decreases n
  {
    if a != 0 && b != 0 {
      XorBound(a / 2, b / 2, n - 1);
    }
  }

  /** The top bit survives an exclusive or with anything shorter. */
  lemma {:induction false} XorTop(a: nat, b: nat, n: nat)
    requires a < Pow2(n) <= b < Pow2(n + 1)
    ensures Pow2(n) <= Xor(a, b) < Pow2(n + 1)
    decreases n
  {
    if a != 0 {
      XorTop(a / 2, b / 2, n - 1);
    }
  }

  /** Two numbers of the same bit length cancel their top bits. */
  lemma {:induction false} XorDropTop(a: nat, b: nat, n: nat)
    requires Pow2(n) <= a < Pow2(n + 1) && Pow2(n) <= b < Pow2(n + 1)
    ensures Xor(a, b) < Pow2(n)
    decreases n
  {
    if n != 0 {
      XorDropTop(a / 2, b / 2, n - 1);
    }
  }

  /** Exclusive or works block by block: high part and low part separately. */
  lemma {:induction false} XorSplit(n: nat, aHigh: nat, aLow: nat, bHigh: nat, bLow: nat)
    requires aLow < Pow2(n) && bLow < Pow2(n)
    ensures Xor(aHigh * Pow2(n) + aLow, bHigh * Pow2(n) + bLow) == Xor(aHigh, bHigh) * Pow2(n) + Xor(aLow, bLow)
    decreases n
  {
    if n != 0 {
      XorSplit(n - 1, aHigh, aLow / 2, bHigh, bLow / 2);
      XorSplitStep(n, aHigh, aLow, bHigh, bLow);
    }
  }

  lemma XorSplitStep(n: nat, aHigh: nat, aLow: nat, bHigh: nat, bLow: nat)
    requires n >= 1
    requires Xor(aHigh * Pow2(n - 1) + aLow / 2, bHigh * Pow2(n - 1) + bLow / 2)
          == Xor(aHigh, bHigh) * Pow2(n - 1) + Xor(aLow / 2, bLow / 2)
    ensures Xor(aHigh * Pow2(n) + aLow, bHigh * Pow2(n) + bLow) == Xor(aHigh, bHigh) * Pow2(n) + Xor(aLow, bLow)
  {
    hide Xor, Pow2;
    HalfOfBlocks(n, aHigh, aLow);
    HalfOfBlocks(n, bHigh, bLow);
    HalfOfBlocks(n, Xor(aHigh, bHigh), Xor(aLow, bLow));
    XorHalves(aHigh * Pow2(n) + aLow, bHigh * Pow2(n) + bLow);
    XorHalves(aLow, bLow);
    SameHalves(
      Xor(aHigh * Pow2(n) + aLow, bHigh * Pow2(n) + bLow), Xor(aHigh, bHigh) * Pow2(n) + Xor(aLow, bLow));
  }

  lemma HalfOfBlocks(n: nat, high: nat, low: nat)
    requires n >= 1
    ensures (high * Pow2(n) + low) / 2 == high * Pow2(n - 1) + low / 2
    ensures (high * Pow2(n) + low) % 2 == low % 2
  {
    assert high * Pow2(n) == 2 * (high * Pow2(n - 1));
  }

  // ----- The carry-less product makes the numbers a commutative ring -----

  lemma XorDouble(a: nat, b: nat)
    ensures Xor(2 * a, 2 * b) == 2 * Xor(a, b)
  {
    XorStep(2 * a, 2 * b);
  }

  lemma {:induction false} TimesDoubleLeft(a: nat, b: nat)
    ensures Times(2 * a, b) == 2 * Times(a, b)
    decreases b
  {
    if b != 0 {
      TimesDoubleLeft(a, b / 2);
      XorDouble(if b % 2 == 1 then a else 0, 2 * Times(a, b / 2));
    }
  }

  lemma {:induction false} TimesXorLeft(a: nat, b: nat, c: nat)
    ensures Times(Xor(a, b), c) == Xor(Times(a, c), Times(b, c))
    decreases c
  {
    if c != 0 {
      TimesXorLeft(a, b, c / 2);
      XorDouble(Times(a, c / 2), Times(b, c / 2));
      var a0, b0 := if c % 2 == 1 then a else 0, if c % 2 == 1 then b else 0;
      XorSwap(a0, 2 * Times(a, c / 2), b0, 2 * Times(b, c / 2));
    }
  }

  lemma {:induction false} TimesZeroLeft(b: nat)
    ensures Times(0, b) == 0
    decreases b
  {
    if b != 0 {
      TimesZeroLeft(b / 2);
    }
  }

  lemma {:induction false} TimesXorRight(a: nat, b: nat, c: nat)
    ensures Times(a, Xor(b, c)) == Xor(Times(a, b), Times(a, c))
    decreases b + c
  {
    if b == 0 {
    } else if c == 0 {
      XorZero(Times(a, b));
    } else {
      TimesXorRight(a, b / 2, c / 2);
      var b0, c0 := if b % 2 == 1 then a else 0, if c % 2 == 1 then a else 0;
      var b1, c1 := Times(a, b / 2), Times(a, c / 2);
      XorHalves(b, c);
      TimesStep(a, b);
      TimesStep(a, c);
      TimesStep(a, Xor(b, c));
      hide Times;
      XorSelf(a);
      XorZero(a);
      XorDouble(b1, c1);
      XorSwap(b0, 2 * b1, c0, 2 * c1);
      assert Xor(b0, c0) == if Xor(b, c) % 2 == 1 then a else 0;
    }
  }

  lemma TimesStep(a: nat, b: nat)
    ensures Times(a, b) == Xor(if b % 2 == 1 then a else 0, 2 * Times(a, b / 2))
  {
  }

  lemma {:induction false} TimesOneLeft(b: nat)
    ensures Times(1, b) == b
    decreases b
  {
    if b != 0 {
      TimesOneLeft(b / 2);
      XorStep(b % 2, 2 * (b / 2));
    }
  }

  lemma {:induction false} TimesComm(a: nat, b: nat)
    ensures Times(a, b) == Times(b, a)
    decreases a
  {
    if a == 0 {
      TimesZeroLeft(b);
    } else {
      // a == x * (a / 2) + (a % 2)
      XorStep(a % 2, 2 * (a / 2));
      assert Xor(a % 2, 2 * (a / 2)) == a;
      assert Times(b, a) == Xor(if a % 2 == 1 then b else 0, 2 * Times(b, a / 2));
      hide *;
      TimesXorLeft(a % 2, 2 * (a / 2), b);
      TimesDoubleLeft(a / 2, b);
      TimesComm(a / 2, b);
      TimesZeroLeft(b);
      TimesOneLeft(b);
    }
  }

  lemma {:induction false} TimesAssoc(a: nat, b: nat, c: nat)
    ensures Times(Times(a, b), c) == Times(a, Times(b, c))
    decreases c
  {
    if c != 0 {
      TimesAssoc(a, b, c / 2);
      var b0 := if c % 2 == 1 then b else 0;
      TimesXorRight(a, b0, 2 * Times(b, c / 2));
      assert Times(a, 2 * Times(b, c / 2)) == 2 * Times(a, Times(b, c / 2));
    }
  }

  /** Degrees add up. */
  lemma {:induction false} TimesDegree(a: nat, b: nat, m: nat, n: nat)
    requires Pow2(m) <= a < Pow2(m + 1) && Pow2(n) <= b < Pow2(n + 1)
    ensures Pow2(m + n) <= Times(a, b) < Pow2(m + n + 1)
    decreases n
  {
    if n == 0 {
      assert b == 1;
      XorZero(a);
    } else {
      TimesDegree(a, b / 2, m, n - 1);
      Pow2Monotone(m + 1, m + n);
      XorTop(if b % 2 == 1 then a else 0, 2 * Times(a, b / 2), m + n);
    }
  }

  lemma {:induction false} Pow2Monotone(m: nat, n: nat)
    requires m <= n
    ensures Pow2(m) <= Pow2(n)
    decreases n - m
  {
    if m < n {
      Pow2Monotone(m + 1, n);
    }
  }

  lemma {:induction false} Pow2Add(m: nat, n: nat)
    ensures Pow2(m + n) == Pow2(m) * Pow2(n)
    decreases n
  {
    if n != 0 {
      Pow2Add(m, n - 1);
      assert Pow2(m + n) == 2 * Pow2(m + (n - 1));
    }
  }

  /** Every nonzero polynomial has a degree. */
  lemma {:induction false} Degree(a: nat) returns (n: nat)
    requires a != 0
    ensures Pow2(n) <= a < Pow2(n + 1)
  {
    if a == 1 {
      n := 0;
    } else {
      n := Degree(a / 2);
      n := n + 1;
    }
  }

  // ----- Residues modulo a polynomial -----

  /** p is a polynomial of degree exactly m. */
  ghost predicate IsModulus(m: nat, p: nat) {
    Pow2(m) <= p < Pow2(m + 1)
  }

  /** a and b differ by a multiple of p. */
  ghost predicate Congruent(p: nat, a: nat, b: nat) {
    exists q: nat :: Xor(a, b) == Times(q, p)
  }

  lemma CongruentBy(p: nat, a: nat, b: nat, q: nat)
    requires Xor(a, b) == Times(q, p)
    ensures Congruent(p, a, b)
  {
  }

  lemma CongruentRefl(p: nat, a: nat)
    ensures Congruent(p, a, a)
  {
    XorSelf(a);
    TimesZeroLeft(p);
    CongruentBy(p, a, a, 0);
  }

  lemma CongruentSym(p: nat, a: nat, b: nat)
    requires Congruent(p, a, b)
    ensures Congruent(p, b, a)
  {
    XorComm(a, b);
    var q: nat :| Xor(a, b) == Times(q, p);
    CongruentBy(p, b, a, q);
  }

  lemma CongruentXor(p: nat, a: nat, b: nat, c: nat, d: nat)
    requires Congruent(p, a, b) && Congruent(p, c, d)
    ensures Congruent(p, Xor(a, c), Xor(b, d))
  {
    var q: nat :| Xor(a, b) == Times(q, p);
    var r: nat :| Xor(c, d) == Times(r, p);
    XorSwap(a, c, b, d);
    TimesXorLeft(q, r, p);
    CongruentBy(p, Xor(a, c), Xor(b, d), Xor(q, r));
  }

  lemma CongruentTrans(p: nat, a: nat, b: nat, c: nat)
    requires Congruent(p, a, b) && Congruent(p, b, c)
    ensures Congruent(p, a, c)
  {
    var q: nat :| Xor(a, b) == Times(q, p);
    var r: nat :| Xor(b, c) == Times(r, p);
    XorAssoc(a, b, Xor(b, c));
    XorCancel(b, c);
    TimesXorLeft(q, r, p);
    CongruentBy(p, a, c, Xor(q, r));
  }

  lemma CongruentTimes(p: nat, a: nat, b: nat, c: nat)
    requires Congruent(p, a, b)
    ensures Congruent(p, Times(c, a), Times(c, b))
    ensures Congruent(p, Times(a, c), Times(b, c))
  {
    var q: nat :| Xor(a, b) == Times(q, p);
    TimesXorRight(c, a, b);
    TimesAssoc(c, q, p);
    CongruentBy(p, Times(c, a), Times(c, b), Times(c, q));
    TimesComm(a, c);
    TimesComm(b, c);
  }

  /** A residue class has only one member below the modulus: this makes products well defined. */
  lemma ResidueUnique(m: nat, p: nat, a: nat, b: nat)
    requires IsModulus(m, p) && a < Pow2(m) && b < Pow2(m)
    requires Congruent(p, a, b)
    ensures a == b
  {
    var q: nat :| Xor(a, b) == Times(q, p);
    XorBound(a, b, m);
    if q != 0 {
      var n := Degree(q);
      TimesDegree(q, p, n, m);
      Pow2Monotone(m, n + m);
      assert false;
    }
    TimesZeroLeft(p);
    XorZeroMeansEqual(a, b);
  }

  /** Multiplication by x followed by one reduction step: what one round of the gf.h loop does to `a`. */
  function TimesX(m: nat, p: nat, a: nat): nat {
    if 2 * a < Pow2(m) then 2 * a else Xor(2 * a, p)
  }

  lemma TimesXCongruent(m: nat, p: nat, a: nat)
    requires IsModulus(m, p) && a < Pow2(m)
    ensures TimesX(m, p, a) < Pow2(m)
    ensures Congruent(p, TimesX(m, p, a), 2 * a)
  {
    if 2 * a < Pow2(m) {
      CongruentRefl(p, 2 * a);
    } else {
      XorDropTop(2 * a, p, m);
      XorComm(2 * a, p);
      XorCancel(p, 2 * a);
      TimesOneLeft(p);
      CongruentBy(p, TimesX(m, p, a), 2 * a, 1);
    }
  }

  /** The remainder of any polynomial, by Horner's rule on its coefficients. */
  function Reduce(m: nat, p: nat, a: nat): nat
    decreases a
  {
    if a == 0 then 0 else Xor(TimesX(m, p, Reduce(m, p, a / 2)), a % 2)
  }

  lemma {:induction false} ReduceIsRemainder(m: nat, p: nat, a: nat)
    requires IsModulus(m, p) && m >= 1
    ensures Reduce(m, p, a) < Pow2(m)
    ensures Congruent(p, Reduce(m, p, a), a)
    decreases a
  {
    if a == 0 {
      CongruentRefl(p, 0);
    } else {
      ReduceIsRemainder(m, p, a / 2);
      HornerStep(m, p, Reduce(m, p, a / 2), a);
    }
  }

  lemma HornerStep(m: nat, p: nat, high: nat, a: nat)
    requires IsModulus(m, p) && m >= 1
    requires high < Pow2(m) && Congruent(p, high, a / 2)
    ensures Xor(TimesX(m, p, high), a % 2) < Pow2(m)
    ensures Congruent(p, Xor(TimesX(m, p, high), a % 2), a)
  {
    TimesXCongruent(m, p, high);
    Pow2Monotone(1, m);
    XorBound(TimesX(m, p, high), a % 2, m);
    // x * high is congruent to x * (a / 2)
    CongruentTimes(p, high, a / 2, 2);
    TimesTwo(high);
    TimesTwo(a / 2);
    CongruentTrans(p, TimesX(m, p, high), 2 * high, 2 * (a / 2));
    CongruentRefl(p, a % 2);
    CongruentXor(p, TimesX(m, p, high), 2 * (a / 2), a % 2, a % 2);
    XorStep(2 * (a / 2), a % 2);
  }

  lemma TimesTwo(a: nat)
    ensures Times(a, 2) == 2 * a
  {
    assert Times(a, 1) == Xor(a, 0);
    XorZero(a);
  }

  lemma ReduceSmall(m: nat, p: nat, a: nat)
    requires IsModulus(m, p) && m >= 1 && a < Pow2(m)
    ensures Reduce(m, p, a) == a
  {
    ReduceIsRemainder(m, p, a);
    ResidueUnique(m, p, Reduce(m, p, a), a);
  }

  lemma ReduceCongruent(m: nat, p: nat, a: nat, b: nat)
    requires IsModulus(m, p) && m >= 1 && Congruent(p, a, b)
    ensures Reduce(m, p, a) == Reduce(m, p, b)
  {
    ReduceIsRemainder(m, p, a);
    ReduceIsRemainder(m, p, b);
    CongruentTrans(p, Reduce(m, p, a), a, b);
    CongruentSym(p, Reduce(m, p, b), b);
    CongruentTrans(p, Reduce(m, p, a), b, Reduce(m, p, b));
    ResidueUnique(m, p, Reduce(m, p, a), Reduce(m, p, b));
  }
}
