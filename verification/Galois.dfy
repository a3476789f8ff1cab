/**
  The two fields the erasure code computes in: GF(2^8) modulo 0x11D and GF(2^16) modulo
  0x1100B, chosen by the cell type of the C++ templates. Multiplication is defined as the
  remainder of a polynomial product; the laws below hold for all natural numbers, so the
  linear algebra built on them carries no range conditions.
 */
module Galois {
  import opened Gf2Poly
  import Gf

  /** The template argument cell_type: uint8_t or uint16_t. */
  datatype Width = W8 | W16

  function Bits(w: Width): nat {
    if w == W8 then 8 else 16
  }

  /** sizeof(cell_type). */
  function CellSize(w: Width): nat {
    if w == W8 then 1 else 2
  }

  /** The number of field elements. */
  function Size(w: Width): nat {
    if w == W8 then 0x100 else 0x1_0000
  }

  /** The number of nonzero field elements, 255 or 0xFFFF in the table loops. */
  function Order(w: Width): nat {
    Size(w) - 1
  }

  function Poly(w: Width): nat {
    Gf.Modulus(Bits(w))
  }

  function Mul(w: Width, a: nat, b: nat): nat {
    Reduce(Bits(w), Poly(w), Times(a, b))
  }

  lemma WidthFacts(w: Width)
    ensures Size(w) == Pow2(Bits(w))
    ensures IsModulus(Bits(w), Poly(w)) && Bits(w) >= 1
    ensures Gf.Holds(Bits(w), Poly(w), Gf.PolynomialBytes(Bits(w)))
  {
    Gf.PowersOfTwo();
    Gf.InstantiatedModuli(Bits(w));
  }

  // ----- Closure -----

  lemma MulRange(w: Width, a: nat, b: nat)
    ensures Mul(w, a, b) < Size(w)
  {
    WidthFacts(w);
    ReduceIsRemainder(Bits(w), Poly(w), Times(a, b));
  }

  lemma XorRange(w: Width, a: nat, b: nat)
    requires a < Size(w) && b < Size(w)
    ensures Xor(a, b) < Size(w)
  {
    WidthFacts(w);
    XorBound(a, b, Bits(w));
  }

  // ----- The laws of a commutative ring -----

  /** The product is pinned down by its residue class: the meaning of Mul without its algorithm. */
  lemma MulIsPolynomialProduct(w: Width, a: nat, b: nat, r: nat)
    ensures r == Mul(w, a, b) <==> r < Size(w) && Congruent(Poly(w), r, Times(a, b))
  {
    WidthFacts(w);
    ReduceIsRemainder(Bits(w), Poly(w), Times(a, b));
    if r < Size(w) && Congruent(Poly(w), r, Times(a, b)) {
      ReduceCongruent(Bits(w), Poly(w), r, Times(a, b));
      ReduceSmall(Bits(w), Poly(w), r);
    }
  }

  lemma MulComm(w: Width, a: nat, b: nat)
    ensures Mul(w, a, b) == Mul(w, b, a)
  {
    TimesComm(a, b);
  }

  lemma MulAssoc(w: Width, a: nat, b: nat, c: nat)
    ensures Mul(w, Mul(w, a, b), c) == Mul(w, a, Mul(w, b, c))
  {
    WidthFacts(w);
    var m, p := Bits(w), Poly(w);
    ReduceIsRemainder(m, p, Times(a, b));
    ReduceIsRemainder(m, p, Times(b, c));
    CongruentTimes(p, Mul(w, a, b), Times(a, b), c);
    CongruentTimes(p, Mul(w, b, c), Times(b, c), a);
    TimesAssoc(a, b, c);
    ReduceCongruent(m, p, Times(Mul(w, a, b), c), Times(Times(a, b), c));
    ReduceCongruent(m, p, Times(a, Mul(w, b, c)), Times(a, Times(b, c)));
  }

  lemma MulXor(w: Width, a: nat, b: nat, c: nat)
    ensures Mul(w, a, Xor(b, c)) == Xor(Mul(w, a, b), Mul(w, a, c))
  {
    WidthFacts(w);
    var m, p := Bits(w), Poly(w);
    TimesXorRight(a, b, c);
    ReduceIsRemainder(m, p, Times(a, b));
    ReduceIsRemainder(m, p, Times(a, c));
    CongruentXor(p, Mul(w, a, b), Times(a, b), Mul(w, a, c), Times(a, c));
    ReduceCongruent(m, p, Xor(Mul(w, a, b), Mul(w, a, c)), Times(a, Xor(b, c)));
    XorRange(w, Mul(w, a, b), Mul(w, a, c));
    ReduceSmall(m, p, Xor(Mul(w, a, b), Mul(w, a, c)));
  }

  lemma MulOne(w: Width, a: nat)
    requires a < Size(w)
    ensures Mul(w, 1, a) == a && Mul(w, a, 1) == a
  {
    WidthFacts(w);
    TimesOneLeft(a);
    TimesComm(1, a);
    ReduceSmall(Bits(w), Poly(w), a);
  }

  lemma MulZero(w: Width, a: nat)
    ensures Mul(w, 0, a) == 0 && Mul(w, a, 0) == 0
  {
    TimesZeroLeft(a);
    TimesZeroRight(a);
  }

  // ----- Powers of x, the element 2 -----

  /** x^e, computed as the table loop does: one multiplication by 2 at a time. */
  function XPow(w: Width, e: nat): nat {
    if e == 0 then 1 else Mul(w, XPow(w, e - 1), 2)
  }

  lemma XPowRange(w: Width, e: nat)
    ensures XPow(w, e) < Size(w)
  {
    if e != 0 {
      MulRange(w, XPow(w, e - 1), 2);
    }
  }

  lemma {:induction false} XPowAdd(w: Width, d: nat, e: nat)
    ensures XPow(w, d + e) == Mul(w, XPow(w, d), XPow(w, e))
    decreases e
  {
    hide Mul;
    if e == 0 {
      XPowRange(w, d);
      MulOne(w, XPow(w, d));
    } else {
      XPowAdd(w, d, e - 1);
      MulAssoc(w, XPow(w, d), XPow(w, e - 1), 2);
      assert XPow(w, d + e) == Mul(w, XPow(w, d + (e - 1)), 2);
    }
  }
}
