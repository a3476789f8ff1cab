/**
  The element 2 generates both fields: its powers 2^0 .. 2^(Order - 1) are exactly the
  nonzero elements. This is what the log tables of gf.h silently rely on.
 */
module Primitive {
  import opened Galois
  import opened BitEval

  // ----- Concrete powers -----

  ghost predicate IsPow(w: Width, e: nat, v: bv16) {
    Num(v, Bits(w)) == XPow(w, e)
  }

  lemma PowStep(w: Width, d: nat, u: bv16, e: nat, v: bv16, r: bv16)
    requires IsPow(w, d, u) && IsPow(w, e, v) && Eval(w, u, v) == r
    ensures IsPow(w, d + e, r)
  {
    hide *;
    EvalIsMul(w, u, v);
    XPowAdd(w, d, e);
    PowStepFacts(w, d, u, e, v, r);
  }

  lemma PowStepFacts(w: Width, d: nat, u: bv16, e: nat, v: bv16, r: bv16)
    requires IsPow(w, d, u) && IsPow(w, e, v)
    requires Num(r, Bits(w)) == Mul(w, Num(u, Bits(w)), Num(v, Bits(w)))
    requires XPow(w, d + e) == Mul(w, XPow(w, d), XPow(w, e))
    ensures IsPow(w, d + e, r)
  {
    hide XPow, Num, Mul;
  }

  lemma FirstPower(w: Width)
    ensures IsPow(w, 1, 2)
  {
    NumNibble(2, Bits(w));
    NumZero(Bits(w) - 4);
    WidthFacts(w);
    MulOne(w, 2);
    assert XPow(w, 1) == Mul(w, XPow(w, 0), 2);
  }

  lemma Powers8Small()
    requires IsPow(W8, 1, 0x2)
    ensures IsPow(W8, 3, 0x8)
    ensures IsPow(W8, 4, 0x10)
    ensures IsPow(W8, 8, 0x1D)
    ensures IsPow(W8, 15, 0x26)
  {
    hide IsPow;
    PowStep(W8, 1, 0x2, 1, 0x2, 0x4);
    PowStep(W8, 1, 0x2, 2, 0x4, 0x8);
    PowStep(W8, 2, 0x4, 2, 0x4, 0x10);
    PowStep(W8, 3, 0x8, 4, 0x10, 0x80);
    PowStep(W8, 7, 0x80, 1, 0x2, 0x1D);
    PowStep(W8, 7, 0x80, 8, 0x1D, 0x26);
  }

  lemma Powers8Five()
    requires IsPow(W8, 3, 0x8)
    requires IsPow(W8, 4, 0x10)
    requires IsPow(W8, 8, 0x1D)
    ensures IsPow(W8, 51, 0xA)
  {
    hide IsPow;
    PowStep(W8, 8, 0x1D, 4, 0x10, 0xCD);
    PowStep(W8, 12, 0xCD, 12, 0xCD, 0x8F);
    PowStep(W8, 24, 0x8F, 24, 0x8F, 0x46);
    PowStep(W8, 48, 0x46, 3, 0x8, 0xA);
  }

  lemma Powers8Three()
    requires IsPow(W8, 1, 0x2)
    requires IsPow(W8, 4, 0x10)
    ensures IsPow(W8, 85, 0xD6)
  {
    hide IsPow;
    PowStep(W8, 4, 0x10, 1, 0x2, 0x20);
    PowStep(W8, 5, 0x20, 5, 0x20, 0x74);
    PowStep(W8, 10, 0x74, 10, 0x74, 0xB4);
    PowStep(W8, 20, 0xB4, 20, 0xB4, 0x6A);
    PowStep(W8, 40, 0x6A, 40, 0x6A, 0xFD);
    PowStep(W8, 80, 0xFD, 5, 0x20, 0xD6);
  }

  lemma Powers8Order()
    requires IsPow(W8, 85, 0xD6)
    ensures IsPow(W8, 255, 0x1)
  {
    hide IsPow;
    PowStep(W8, 85, 0xD6, 85, 0xD6, 0xD7);
    PowStep(W8, 170, 0xD7, 85, 0xD6, 0x1);
  }

  lemma Powers16Small()
    requires IsPow(W16, 1, 0x2)
    ensures IsPow(W16, 3, 0x8)
    ensures IsPow(W16, 4, 0x10)
    ensures IsPow(W16, 12, 0x1000)
    ensures IsPow(W16, 15, 0x8000)
  {
    hide IsPow;
    PowStep(W16, 1, 0x2, 1, 0x2, 0x4);
    PowStep(W16, 1, 0x2, 2, 0x4, 0x8);
    PowStep(W16, 2, 0x4, 2, 0x4, 0x10);
    PowStep(W16, 3, 0x8, 3, 0x8, 0x40);
    PowStep(W16, 6, 0x40, 6, 0x40, 0x1000);
    PowStep(W16, 12, 0x1000, 3, 0x8, 0x8000);
  }

  lemma Powers16Low()
    requires IsPow(W16, 15, 0x8000)
    ensures IsPow(W16, 240, 0x6B65)
    ensures IsPow(W16, 255, 0x8D92)
  {
    hide IsPow;
    PowStep(W16, 15, 0x8000, 15, 0x8000, 0x8EFA);
    PowStep(W16, 30, 0x8EFA, 30, 0x8EFA, 0xC9C5);
    PowStep(W16, 60, 0xC9C5, 60, 0xC9C5, 0x27B7);
    PowStep(W16, 120, 0x27B7, 120, 0x27B7, 0x6B65);
    PowStep(W16, 240, 0x6B65, 15, 0x8000, 0x8D92);
  }

  lemma Powers16OrderLow()
    requires IsPow(W16, 255, 0x8D92)
    ensures IsPow(W16, 4080, 0xCD12)
  {
    hide IsPow;
    PowStep(W16, 255, 0x8D92, 255, 0x8D92, 0x8DA2);
    PowStep(W16, 510, 0x8DA2, 510, 0x8DA2, 0x88A2);
    PowStep(W16, 1020, 0x88A2, 1020, 0x88A2, 0x8812);
    PowStep(W16, 2040, 0x8812, 2040, 0x8812, 0xCD12);
  }

  lemma Powers16Order()
    requires IsPow(W16, 255, 0x8D92)
    requires IsPow(W16, 4080, 0xCD12)
    ensures IsPow(W16, 65535, 0x1)
  {
    hide IsPow;
    PowStep(W16, 4080, 0xCD12, 4080, 0xCD12, 0x6619);
    PowStep(W16, 8160, 0x6619, 8160, 0x6619, 0x9481);
    PowStep(W16, 16320, 0x9481, 16320, 0x9481, 0xC5FB);
    PowStep(W16, 32640, 0xC5FB, 32640, 0xC5FB, 0x70B4);
    PowStep(W16, 65280, 0x70B4, 255, 0x8D92, 0x1);
  }

  lemma Powers16Seventeen()
    requires IsPow(W16, 15, 0x8000)
    requires IsPow(W16, 240, 0x6B65)
    ensures IsPow(W16, 3855, 0x4D78)
  {
    hide IsPow;
    PowStep(W16, 240, 0x6B65, 240, 0x6B65, 0xC38D);
    PowStep(W16, 480, 0xC38D, 480, 0xC38D, 0x3537);
    PowStep(W16, 960, 0x3537, 960, 0x3537, 0x70F2);
    PowStep(W16, 1920, 0x70F2, 1920, 0x70F2, 0x8BE8);
    PowStep(W16, 3840, 0x8BE8, 15, 0x8000, 0x4D78);
  }

  lemma Powers16FiveLow()
    requires IsPow(W16, 3, 0x8)
    requires IsPow(W16, 12, 0x1000)
    ensures IsPow(W16, 51, 0x41BE)
    ensures IsPow(W16, 204, 0x167D)
  {
    hide IsPow;
    PowStep(W16, 12, 0x1000, 12, 0x1000, 0x1BBB);
    PowStep(W16, 24, 0x1BBB, 24, 0x1BBB, 0x4C35);
    PowStep(W16, 48, 0x4C35, 3, 0x8, 0x41BE);
    PowStep(W16, 51, 0x41BE, 51, 0x41BE, 0xFEE4);
    PowStep(W16, 102, 0xFEE4, 102, 0xFEE4, 0x167D);
  }

  lemma Powers16Five()
    requires IsPow(W16, 51, 0x41BE)
    requires IsPow(W16, 204, 0x167D)
    ensures IsPow(W16, 13107, 0x1CE8)
  {
    hide IsPow;
    PowStep(W16, 204, 0x167D, 204, 0x167D, 0x5E7D);
    PowStep(W16, 408, 0x5E7D, 408, 0x5E7D, 0xB72A);
    PowStep(W16, 816, 0xB72A, 816, 0xB72A, 0xBF75);
    PowStep(W16, 1632, 0xBF75, 1632, 0xBF75, 0xECCC);
    PowStep(W16, 3264, 0xECCC, 3264, 0xECCC, 0x49AA);
    PowStep(W16, 6528, 0x49AA, 6528, 0x49AA, 0xBD18);
    PowStep(W16, 13056, 0xBD18, 51, 0x41BE, 0x1CE8);
  }

  lemma Powers16ThreeLow()
    requires IsPow(W16, 1, 0x2)
    requires IsPow(W16, 4, 0x10)
    ensures IsPow(W16, 85, 0x1539)
  {
    hide IsPow;
    PowStep(W16, 4, 0x10, 1, 0x2, 0x20);
    PowStep(W16, 5, 0x20, 5, 0x20, 0x400);
    PowStep(W16, 10, 0x400, 10, 0x400, 0x10BB);
    PowStep(W16, 20, 0x10BB, 20, 0x10BB, 0x5EFE);
    PowStep(W16, 40, 0x5EFE, 40, 0x5EFE, 0xF72F);
    PowStep(W16, 80, 0xF72F, 5, 0x20, 0x1539);
  }

  lemma Powers16ThreeMid()
    requires IsPow(W16, 85, 0x1539)
    ensures IsPow(W16, 1360, 0x42B7)
  {
    hide IsPow;
    PowStep(W16, 85, 0x1539, 85, 0x1539, 0x1E4A);
    PowStep(W16, 170, 0x1E4A, 170, 0x1E4A, 0x1984);
    PowStep(W16, 340, 0x1984, 340, 0x1984, 0x94C);
    PowStep(W16, 680, 0x94C, 680, 0x94C, 0x42B7);
  }

  lemma Powers16Three()
    requires IsPow(W16, 85, 0x1539)
    requires IsPow(W16, 1360, 0x42B7)
    ensures IsPow(W16, 21845, 0x15E)
  {
    hide IsPow;
    PowStep(W16, 1360, 0x42B7, 1360, 0x42B7, 0xAE82);
    PowStep(W16, 2720, 0xAE82, 2720, 0xAE82, 0xB269);
    PowStep(W16, 5440, 0xB269, 5440, 0xB269, 0xAFC0);
    PowStep(W16, 10880, 0xAFC0, 10880, 0xAFC0, 0xB266);
    PowStep(W16, 21760, 0xB266, 85, 0x1539, 0x15E);
  }

}
