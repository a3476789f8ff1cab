/**
  Machine words as polynomials. Concrete products in GF(2^8) and GF(2^16) are evaluated on
  bit vectors, and this module proves that evaluation equal to the product of Galois.
 */
module BitEval {
  import opened Gf2Poly
  import opened Galois

  function Bit(x: bv16): (b: nat)
    ensures b <= 1
  {
    if x & 1 == 0 then 0 else 1
  }

  /** The number formed by the n lowest bits of the word. */
  function Num(x: bv16, n: nat): nat
    decreases n
  {
    if n == 0 then 0 else 2 * Num(x >> 1, n - 1) + Bit(x)
  }

  lemma NumNone(x: bv16)
    ensures Num(x, 0) == 0
  {
  }

  lemma NumStep(x: bv16, n: nat)
    requires n >= 1
    ensures Num(x, n) == 2 * Num(x >> 1, n - 1) + Bit(x)
  {
  }

  lemma {:induction false} NumBound(x: bv16, n: nat)
    ensures Num(x, n) < Pow2(n)
    decreases n
  {
    if n != 0 {
      NumBound(x >> 1, n - 1);
    }
  }

  lemma {:induction false} NumZero(n: nat)
    ensures Num(0, n) == 0
  {
    if n != 0 {
      assert (0 as bv16) >> 1 == 0;
      NumZero(n - 1);
    }
  }

  lemma XorBits(x: bv16, y: bv16)
    ensures (x ^ y) >> 1 == (x >> 1) ^ (y >> 1)
    ensures Bit(x ^ y) == if Bit(x) == Bit(y) then 0 else 1
  {
  }

  lemma XorDigits(a: nat, b: nat, c: nat, d: nat)
    requires c <= 1 && d <= 1
    ensures Xor(2 * a + c, 2 * b + d) == 2 * Xor(a, b) + (if c == d then 0 else 1)
  {
    XorStep(2 * a + c, 2 * b + d);
  }

  lemma NumXorStep(x: bv16, y: bv16, z: bv16, hx: bv16, hy: bv16, hz: bv16, n: nat)
    requires n >= 1
    requires Num(x, n) == 2 * Num(hx, n - 1) + Bit(x)
    requires Num(y, n) == 2 * Num(hy, n - 1) + Bit(y)
    requires Num(z, n) == 2 * Num(hz, n - 1) + Bit(z)
    requires Num(hz, n - 1) == Xor(Num(hx, n - 1), Num(hy, n - 1))
    requires Bit(z) == if Bit(x) == Bit(y) then 0 else 1
    ensures Num(z, n) == Xor(Num(x, n), Num(y, n))
  {
    hide *;
    XorDigits(Num(hx, n - 1), Num(hy, n - 1), Bit(x), Bit(y));
  }

  lemma {:induction false} NumXor(x: bv16, y: bv16, n: nat)
    ensures Num(x ^ y, n) == Xor(Num(x, n), Num(y, n))
    decreases n
  {
    hide *;
    if n == 0 {
      NumNone(x);
      NumNone(y);
      NumNone(x ^ y);
      XorZero(0);
    } else {
      var z, hx, hy := x ^ y, x >> 1, y >> 1;
      XorBits(x, y);
      NumXor(hx, hy, n - 1);
      NumStep(x, n);
      NumStep(y, n);
      NumStep(z, n);
      NumXorStep(x, y, z, hx, hy, z >> 1, n);
    }
  }

  /** The n lowest bits of m are set. */
  predicate LowOnes(m: bv16, n: nat)
    decreases n
  {
    n == 0 || (m & 1 == 1 && LowOnes(m >> 1, n - 1))
  }

  lemma {:induction false} NumAgree(x: bv16, y: bv16, m: bv16, n: nat)
    requires LowOnes(m, n) && (x ^ y) & m == 0
    ensures Num(x, n) == Num(y, n)
    decreases n
  {
    if n != 0 {
      assert ((x >> 1) ^ (y >> 1)) & (m >> 1) == 0;
      NumAgree(x >> 1, y >> 1, m >> 1, n - 1);
    }
  }

  /** Bit n of m is the only one among the n + 1 lowest that is set. */
  predicate OneAt(m: bv16, n: nat)
    decreases n
  {
    if n == 0 then m & 1 == 1 else m & 1 == 0 && OneAt(m >> 1, n - 1)
  }

  lemma OneBit(x: bv16, m: bv16)
    requires m & (m - 1) == 0 && m & 1 == 0
    ensures (x >> 1) & (m >> 1) == 0 <==> x & m == 0
    ensures (m >> 1) & ((m >> 1) - 1) == 0
  {
  }

  lemma LastBit(m: bv16)
    requires m & (m - 1) == 0 && m & 1 == 1
    ensures m == 1
  {
  }

  lemma {:induction false} NumTopBit(x: bv16, m: bv16, n: nat)
    requires OneAt(m, n) && m & (m - 1) == 0
    ensures Num(x, n + 1) == Num(x, n) + (if x & m == 0 then 0 else Pow2(n))
    decreases n
  {
    NumStep(x, n + 1);
    if n == 0 {
      LastBit(m);
      assert Num(x >> 1, 0) == 0 == Num(x, 0);
    } else {
      OneBit(x, m);
      NumTopBit(x >> 1, m >> 1, n - 1);
      NumStep(x, n);
    }
  }

  lemma {:induction false} NumShift(x: bv16, n: nat)
    requires 1 <= n <= 16
    ensures Num(x << 1, n) == 2 * Num(x, n - 1)
  {
    assert (x << 1) & 1 == 0;
    assert (((x << 1) >> 1) ^ x) & 0x7FFF == 0;
    Ones15();
    OnesPrefix(0x7FFF, 15, n - 1);
    NumAgree((x << 1) >> 1, x, 0x7FFF, n - 1);
  }

  lemma OnesStep(m: bv16, n: nat)
    requires n >= 1
    ensures LowOnes(m, n) <==> m & 1 == 1 && LowOnes(m >> 1, n - 1)
  {
  }

  lemma OnesNibble(m: bv16, n: nat)
    requires n >= 4 && m & 0xF == 0xF
    ensures LowOnes(m, n) <==> LowOnes(m >> 4, n - 4)
  {
    OnesStep(m, n);
    OnesStep(m >> 1, n - 1);
    OnesStep(m >> 1 >> 1, n - 2);
    OnesStep(m >> 1 >> 1 >> 1, n - 3);
    hide LowOnes;
    ShiftFour(m);
  }

  lemma ShiftFour(m: bv16)
    ensures m >> 1 >> 1 >> 1 >> 1 == m >> 4
    ensures m & 0xF == 0xF ==> m & 1 == (m >> 1) & 1 == (m >> 1 >> 1) & 1 == (m >> 1 >> 1 >> 1) & 1 == 1
    ensures m & 0xF == 0 ==> m & 1 == (m >> 1) & 1 == (m >> 1 >> 1) & 1 == (m >> 1 >> 1 >> 1) & 1 == 0
  {
  }

  lemma Ones15()
    ensures LowOnes(0x7FFF, 15)
  {
    OnesNibble(0x7FFF, 15);
    OnesNibble(0x7FF, 11);
    OnesNibble(0x7F, 7);
    OnesStep(0x7, 3);
    OnesStep(0x3, 2);
    OnesStep(0x1, 1);
  }

  lemma {:induction false} OnesPrefix(m: bv16, n: nat, k: nat)
    requires LowOnes(m, n) && k <= n
    ensures LowOnes(m, k)
    decreases n
  {
    if k != 0 {
      OnesStep(m, n);
      OnesStep(m, k);
      hide LowOnes;
      OnesPrefix(m >> 1, n - 1, k - 1);
    }
  }

  // ----- Multiplication by x -----

  /** The modulus without its leading term, and the bit that carries into it. */
  function Low(w: Width): bv16 {
    if w == W8 then 0x11D else 0x100B
  }

  function High(w: Width): bv16 {
    if w == W8 then 0x80 else 0x8000
  }

  function XT(w: Width, a: bv16): bv16 {
    if a & High(w) == 0 then a << 1 else (a << 1) ^ Low(w)
  }

  lemma OneNibble(m: bv16, n: nat)
    requires n >= 4 && m & 0xF == 0
    ensures OneAt(m, n) <==> OneAt(m >> 4, n - 4)
  {
    OneStep(m, n);
    OneStep(m >> 1, n - 1);
    OneStep(m >> 1 >> 1, n - 2);
    OneStep(m >> 1 >> 1 >> 1, n - 3);
    hide OneAt;
    ShiftFour(m);
  }

  lemma OneStep(m: bv16, n: nat)
    requires n >= 1
    ensures OneAt(m, n) <==> m & 1 == 0 && OneAt(m >> 1, n - 1)
  {
  }

  lemma NumNibble(x: bv16, n: nat)
    requires n >= 4
    ensures var x1 := x >> 1;
            var x2 := x1 >> 1;
            var x3 := x2 >> 1;
            Num(x, n) == 0x10 * Num(x3 >> 1, n - 4) + Bit(x) + 2 * Bit(x1) + 4 * Bit(x2) + 8 * Bit(x3)
  {
    hide *;
    NumTwoBits(x, n);
    NumTwoBits(x >> 1 >> 1, n - 2);
  }

  lemma NumTwoBits(x: bv16, n: nat)
    requires n >= 2
    ensures Num(x, n) == 4 * Num(x >> 1 >> 1, n - 2) + Bit(x) + 2 * Bit(x >> 1)
  {
    hide *;
    NumStep(x, n);
    NumStep(x >> 1, n - 1);
  }

  lemma ModulusDigits(w: Width)
    ensures Num(Low(w), Bits(w)) == if w == W8 then 0x1D else 0x100B
  {
    if w == W8 {
      NumNibble(0x11D, 8);
      NumNibble(0x11, 4);
    } else {
      NumNibble(0x100B, 16);
      NumNibble(0x100, 12);
      NumNibble(0x10, 8);
    }
    NumNibble(0x1, 4);
  }

  lemma Constants(w: Width)
    ensures 1 <= Bits(w) <= 16
    ensures Poly(w) == Size(w) + Num(Low(w), Bits(w))
    ensures OneAt(High(w), Bits(w) - 1) && High(w) & (High(w) - 1) == 0
  {
    ModulusDigits(w);
    hide Num;
    if w == W8 {
      OneNibble(0x80, 7);
    } else {
      OneNibble(0x8000, 15);
      OneNibble(0x800, 11);
      OneNibble(0x80, 7);
    }
    OneStep(0x8, 3);
    OneStep(0x4, 2);
    OneStep(0x2, 1);
  }

  lemma DoubleNum(w: Width, a: bv16)
    ensures Num(a << 1, Bits(w)) + (if a & High(w) == 0 then 0 else Size(w)) == 2 * Num(a, Bits(w))
  {
    Constants(w);
    WidthFacts(w);
    Pow2Half(Bits(w));
    hide *;
    NumTopBit(a, High(w), Bits(w) - 1);
    NumShift(a, Bits(w));
  }

  lemma XTNum(w: Width, a: bv16)
    ensures Num(XT(w, a), Bits(w))
         == if a & High(w) == 0 then Num(a << 1, Bits(w)) else Xor(Num(a << 1, Bits(w)), Num(Low(w), Bits(w)))
  {
    hide *;
    XTCases(w, a);
    NumXor(a << 1, Low(w), Bits(w));
  }

  lemma XTIsTimesX(w: Width, a: bv16)
    ensures Num(XT(w, a), Bits(w)) == Mul(w, Num(a, Bits(w)), 2)
  {
    Constants(w);
    WidthFacts(w);
    hide *;
    var m := Bits(w);
    NumBound(a, m);
    NumBound(a << 1, m);
    NumBound(Low(w), m);
    DoubleNum(w, a);
    XTNum(w, a);
    DoubledWord(w, Num(a, m), Num(a << 1, m), Num(Low(w), m), a & High(w) != 0);
  }

  lemma Pow2Half(n: nat)
    requires n >= 1
    ensures Pow2(n) == 2 * Pow2(n - 1)
  {
  }

  lemma XTCases(w: Width, a: bv16)
    ensures XT(w, a) == if a & High(w) == 0 then a << 1 else (a << 1) ^ Low(w)
  {
  }

  lemma DoubledWord(w: Width, n: nat, doubled: nat, low: nat, carry: bool)
    requires n < Size(w) && doubled < Size(w) && low < Size(w) && Poly(w) == Size(w) + low
    requires doubled + (if carry then Size(w) else 0) == 2 * n
    ensures Mul(w, n, 2) == if carry then Xor(doubled, low) else doubled
  {
    var m, p := Bits(w), Poly(w);
    WidthFacts(w);
    hide *;
    if carry {
      XorSplit(m, 1, doubled, 1, low);
      XorSelf(1);
    }
    TimesXCases(m, p, n);
    TimesXCongruent(m, p, n);
    TimesTwo(n);
    MulIsPolynomialProduct(w, n, 2, TimesX(m, p, n));
  }

  lemma TimesXCases(m: nat, p: nat, n: nat)
    ensures TimesX(m, p, n) == if 2 * n < Pow2(m) then 2 * n else Xor(2 * n, p)
  {
  }

  // ----- Products -----

  /** The three words of the shift-and-xor loop. */
  datatype State = State(acc: bv16, a: bv16, b: bv16)

  function Round(w: Width, s: State): State {
    State(if Bit(s.b) == 0 then s.acc else s.acc ^ s.a, XT(w, s.a), s.b >> 1)
  }

  /** What the loop has still to deliver, when n bits of b are left. */
  ghost function Owed(w: Width, s: State, n: nat): nat {
    Xor(Num(s.acc, Bits(w)), Mul(w, Num(s.a, Bits(w)), Num(s.b, n)))
  }

  lemma RoundKeeps(w: Width, s: State, n: nat)
    requires n >= 1
    ensures Owed(w, Round(w, s), n - 1) == Owed(w, s, n)
  {
    hide *;
    var t := Round(w, s);
    RoundAcc(w, s);
    RoundA(w, s);
    RoundB(w, s, n);
    NumRange(w, s.a);
    OwedSum(w, Num(s.acc, Bits(w)), Num(s.a, Bits(w)), Num(t.b, n - 1), Bit(s.b));
    OwedParts(w, s, n);
    OwedParts(w, t, n - 1);
  }

  lemma RoundAcc(w: Width, s: State)
    ensures Num(Round(w, s).acc, Bits(w))
         == if Bit(s.b) == 0 then Num(s.acc, Bits(w)) else Xor(Num(s.acc, Bits(w)), Num(s.a, Bits(w)))
  {
    hide XT, Bit, Num, Xor;
    AccNum(s.acc, s.a, Bit(s.b) == 0, Bits(w));
  }

  lemma RoundA(w: Width, s: State)
    ensures Num(Round(w, s).a, Bits(w)) == Mul(w, Num(s.a, Bits(w)), 2)
  {
    hide XT, Num, Mul;
    XTIsTimesX(w, s.a);
  }

  lemma RoundB(w: Width, s: State, n: nat)
    requires n >= 1
    ensures Num(s.b, n) == 2 * Num(Round(w, s).b, n - 1) + Bit(s.b)
  {
    hide *;
    RoundHalves(w, s);
    NumStep(s.b, n);
  }

  lemma RoundHalves(w: Width, s: State)
    ensures Round(w, s).b == s.b >> 1
  {
    hide XT, Bit;
  }

  lemma OwedParts(w: Width, s: State, n: nat)
    ensures Owed(w, s, n) == Xor(Num(s.acc, Bits(w)), Mul(w, Num(s.a, Bits(w)), Num(s.b, n)))
  {
  }

  lemma AccNum(acc: bv16, a: bv16, skip: bool, m: nat)
    ensures Num(if skip then acc else acc ^ a, m) == if skip then Num(acc, m) else Xor(Num(acc, m), Num(a, m))
  {
    hide *;
    NumXor(acc, a, m);
  }

  lemma OwedSum(w: Width, acc: nat, a: nat, rest: nat, bit: nat)
    requires bit <= 1 && a < Size(w)
    ensures Xor(if bit == 0 then acc else Xor(acc, a), Mul(w, Mul(w, a, 2), rest)) == Xor(acc, Mul(w, a, 2 * rest + bit))
  {
    hide *;
    ProductStep(w, a, rest, bit);
    XorZero(Mul(w, Mul(w, a, 2), rest));
    XorAssoc(acc, a, Mul(w, Mul(w, a, 2), rest));
  }

  lemma NumRange(w: Width, a: bv16)
    ensures Num(a, Bits(w)) < Size(w)
  {
    WidthFacts(w);
    NumBound(a, Bits(w));
  }

  function Round4(w: Width, s: State): State {
    Round(w, Round(w, Round(w, Round(w, s))))
  }

  /** The whole loop, with no recursion left in it, so that it computes on literals. */
  function Final(w: Width, s: State): State {
    var t := Round4(w, Round4(w, s));
    if w == W8 then t else Round4(w, Round4(w, t))
  }

  function Eval(w: Width, a: bv16, b: bv16): bv16 {
    Final(w, State(0, a, b)).acc
  }

  lemma Round4Keeps(w: Width, s: State, n: nat)
    requires n >= 4
    ensures Owed(w, Round4(w, s), n - 4) == Owed(w, s, n)
  {
    hide Owed, Round;
    RoundKeeps(w, s, n);
    RoundKeeps(w, Round(w, s), n - 1);
    RoundKeeps(w, Round(w, Round(w, s)), n - 2);
    RoundKeeps(w, Round(w, Round(w, Round(w, s))), n - 3);
  }

  lemma LoopKeeps(w: Width, s: State)
    ensures Num(Final(w, s).acc, Bits(w)) == Owed(w, s, Bits(w))
  {
    hide Round4, Owed;
    Round4Keeps(w, s, Bits(w));
    Round4Keeps(w, Round4(w, s), Bits(w) - 4);
    if w == W16 {
      Round4Keeps(w, Round4(w, Round4(w, s)), 8);
      Round4Keeps(w, Round4(w, Round4(w, Round4(w, s))), 4);
    }
    NothingOwed(w, Final(w, s));
  }

  lemma NothingOwed(w: Width, s: State)
    ensures Owed(w, s, 0) == Num(s.acc, Bits(w))
  {
    MulZero(w, Num(s.a, Bits(w)));
    XorZero(Num(s.acc, Bits(w)));
  }

  lemma AllOwed(w: Width, a: bv16, b: bv16, n: nat)
    ensures Owed(w, State(0, a, b), n) == Mul(w, Num(a, Bits(w)), Num(b, n))
  {
    NumZero(Bits(w));
  }

  lemma EvalIsMul(w: Width, a: bv16, b: bv16)
    ensures Num(Eval(w, a, b), Bits(w)) == Mul(w, Num(a, Bits(w)), Num(b, Bits(w)))
  {
    AllOwed(w, a, b, Bits(w));
    LoopKeeps(w, State(0, a, b));
  }

  lemma ProductStep(w: Width, a: nat, rest: nat, bit: nat)
    requires bit <= 1 && a < Size(w)
    ensures Mul(w, a, 2 * rest + bit) == Xor(if bit == 0 then 0 else a, Mul(w, Mul(w, a, 2), rest))
  {
    XorStep(bit, 2 * rest);
    XorZero(rest);
    assert 2 * rest + bit == Xor(bit, 2 * rest);
    MulDouble(w, a, rest);
    hide Mul, Xor;
    MulXor(w, a, bit, 2 * rest);
    MulAssoc(w, a, 2, rest);
    MulOne(w, a);
    MulZero(w, a);
  }

  lemma MulDouble(w: Width, a: nat, b: nat)
    ensures Mul(w, a, 2 * b) == Mul(w, a, Mul(w, 2, b))
  {
    WidthFacts(w);
    TimesComm(2, b);
    TimesTwo(b);
    var m, p := Bits(w), Poly(w);
    ReduceIsRemainder(m, p, 2 * b);
    CongruentTimes(p, Mul(w, 2, b), 2 * b, a);
    ReduceCongruent(m, p, Times(a, Mul(w, 2, b)), Times(a, 2 * b));
  }
}
