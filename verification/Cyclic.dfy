/**
  The nonzero elements form one cycle of powers of x. From the few concrete powers of
  Primitive it follows that no power below the group order is 1, hence that the powers
  2^0 .. 2^(Order - 1) are pairwise different and, by counting, are all nonzero elements.
 */
module Cyclic {
  import opened Collections
  import opened Gf2Poly
  import opened Galois
  import opened BitEval
  import opened Primitive

  // ----- The order of x -----

  function PrimeFactors(w: Width): set<nat> {
    if w == W8 then {3, 5, 17} else {3, 5, 17, 257}
  }

  lemma EvenIsNotOne(w: Width, e: nat, v: bv16)
    requires IsPow(w, e, v) && v & 1 == 0
    ensures XPow(w, e) != 1
  {
    hide XPow, Mul;
    NumStep(v, Bits(w));
  }

  /** x^Order = 1. */
  lemma OrderFacts(w: Width)
    ensures XPow(w, Order(w)) == 1
  {
    hide XPow, IsPow, Num;
    FirstPower(w);
    if w == W8 {
      Powers8Small();
      Powers8Three();
      Powers8Order();
      One(w, 255);
    } else {
      Powers16Small();
      Powers16Low();
      Powers16OrderLow();
      Powers16Order();
      One(w, 65535);
    }
  }

  /** No x^(Order / p) is 1 for a prime p dividing the order. */
  lemma RootFacts(w: Width, p: nat)
    requires p in PrimeFactors(w)
    ensures XPow(w, Order(w) / p) != 1
  {
    hide XPow, IsPow, Num;
    FirstPower(w);
    if w == W8 {
      Powers8Small();
      Powers8Five();
      Powers8Three();
      EvenIsNotOne(w, 15, 0x26);
      EvenIsNotOne(w, 51, 0xA);
      EvenIsNotOne(w, 85, 0xD6);
    } else {
      Powers16Small();
      Powers16Low();
      Powers16Seventeen();
      Powers16FiveLow();
      Powers16Five();
      Powers16ThreeLow();
      Powers16ThreeMid();
      Powers16Three();
      EvenIsNotOne(w, 255, 0x8D92);
      EvenIsNotOne(w, 3855, 0x4D78);
      EvenIsNotOne(w, 13107, 0x1CE8);
      EvenIsNotOne(w, 21845, 0x15E);
    }
  }

  lemma One(w: Width, e: nat)
    requires IsPow(w, e, 1)
    ensures XPow(w, e) == 1
  {
    hide XPow, Mul;
    NumStep(1, Bits(w));
    NumZero(Bits(w) - 1);
  }

  /** The exponents with x^e = 1 are closed under subtraction... */
  lemma PeriodDifference(w: Width, d: nat, e: nat)
    requires d <= e && XPow(w, d) == 1 && XPow(w, e) == 1
    ensures XPow(w, e - d) == 1
  {
    hide XPow, Mul;
    XPowAdd(w, e - d, d);
    XPowRange(w, e - d);
    MulOne(w, XPow(w, e - d));
  }

  lemma PeriodSum(w: Width, d: nat, e: nat)
    requires XPow(w, d) == 1 && XPow(w, e) == 1
    ensures XPow(w, d + e) == 1
  {
    hide XPow, Mul;
    XPowAdd(w, d, e);
    MulOne(w, 1);
  }

  lemma PowZero(w: Width)
    ensures XPow(w, 0) == 1
  {
  }

  /** ... and under multiples, ... */
  lemma {:induction false} PeriodMultiple(w: Width, d: nat, k: nat, e: nat)
    requires e == d * k && XPow(w, d) == 1
    ensures XPow(w, e) == 1
    decreases k
  {
    hide *;
    if k == 0 {
      PowZero(w);
      assert e == 0;
    } else {
      assert e == d * (k - 1) + d;
      PeriodMultiple(w, d, k - 1, e - d);
      PeriodSum(w, e - d, d);
    }
  }

  /** ... hence under greatest common divisors. */
  lemma {:induction false} PeriodGcd(w: Width, d: nat, e: nat) returns (g: nat)
    requires d >= 1 && e >= 1 && XPow(w, d) == 1 && XPow(w, e) == 1
    ensures 1 <= g <= d && XPow(w, g) == 1 && d % g == 0 && e % g == 0
    decreases d + e
  {
    hide XPow, Mul;
    if d == e {
      g := d;
    } else if d < e {
      PeriodDifference(w, d, e);
      g := PeriodGcd(w, d, e - d);
      MultipleSum(e - d, d, g);
    } else {
      PeriodDifference(w, e, d);
      g := PeriodGcd(w, d - e, e);
      MultipleSum(d - e, e, g);
    }
  }

  lemma MultipleSum(a: nat, b: nat, g: nat)
    requires g >= 1 && a % g == 0 && b % g == 0
    ensures (a + b) % g == 0
  {
    var q := a / g + b / g;
    assert a + b == g * q;
    MultipleOf(g, q);
  }

  lemma MultipleOf(g: nat, q: nat)
    requires g >= 1
    ensures (g * q) % g == 0 && (g * q) / g == q
  {
    var d := (g * q) / g - q;
    assert g * d == -((g * q) % g);
    assert d <= -1 ==> g * (d + 1) <= 0;
    assert d >= 1 ==> g * d >= g;
  }

  // ----- Divisors of the order -----

  lemma ResidueProduct(a: nat, b: nat, p: nat)
    requires p >= 1 && (a * b) % p == 0
    ensures ((a % p) * (b % p)) % p == 0
  {
    var r, s := a % p, b % p;
    assert a == p * (a / p) + r && b == p * (b / p) + s;
    assert a * b == p * ((a / p) * b + r * (b / p)) + r * s;
    var q := (a * b) / p - ((a / p) * b + r * (b / p));
    assert r * s == p * q;
    assert r * s >= 0;
    assert q < 0 ==> p * q < 0;
    MultipleOf(p, q);
  }

  lemma Euclid(a: nat, b: nat, p: nat)
    requires p in {3, 5, 17} && (a * b) % p == 0
    ensures a % p == 0 || b % p == 0
  {
    ResidueProduct(a, b, p);
    var r, s := a % p, b % p;
    if p <= 5 {
      if r == 1 {} else if r == 2 {} else if r == 3 {} else if r == 4 {}
    } else {
      if r == 1 {} else if r == 2 {} else if r == 3 {} else if r == 4 {}
      else if r == 5 {} else if r == 6 {} else if r == 7 {} else if r == 8 {}
      else if r == 9 {} else if r == 10 {} else if r == 11 {} else if r == 12 {}
      else if r == 13 {} else if r == 14 {} else if r == 15 {} else if r == 16 {}
    }
  }

  /** 257 has no divisor but 1 and itself. */
  lemma Prime257(a: nat, b: nat)
    requires a * b == 257 && a >= 2
    ensures a == 257
  {
    if a <= 16 {
      if a == 2 {} else if a == 3 {} else if a == 4 {} else if a == 5 {} else if a == 6 {}
      else if a == 7 {} else if a == 8 {} else if a == 9 {} else if a == 10 {} else if a == 11 {}
      else if a == 12 {} else if a == 13 {} else if a == 14 {} else if a == 15 {} else {}
    } else {
      assert b >= 16 ==> a * b >= 17 * 16;
      if b == 0 {} else if b == 1 {} else if b == 2 {} else if b == 3 {} else if b == 4 {} else if b == 5 {}
      else if b == 6 {} else if b == 7 {} else if b == 8 {} else if b == 9 {} else if b == 10 {}
      else if b == 11 {} else if b == 12 {} else if b == 13 {} else if b == 14 {} else {}
    }
  }

  /** Strips one prime from the cofactor g of a divisor c that does not contain it. */
  lemma Strip(c: nat, g: nat, p: nat, rest: nat) returns (g': nat)
    requires p in {3, 5, 17} && c * g == p * rest && c % p != 0
    ensures c * g' == rest
  {
    MultipleOf(p, rest);
    Euclid(c, g, p);
    g' := g / p;
    assert g == p * g';
    assert c * g == p * (c * g');
    assert p * (c * g' - rest) == 0;
  }

  /** Every divisor of the order other than 1 is divisible by one of its primes. */
  lemma PrimeDivides(w: Width, c: nat, g: nat) returns (p: nat)
    requires c * g == Order(w) && c >= 2
    ensures p in PrimeFactors(w) && c % p == 0
  {
    if c % 3 == 0 { return 3; }
    if c % 5 == 0 { return 5; }
    if c % 17 == 0 { return 17; }
    var rest := if w == W8 then 1 else 257;
    assert Order(w) == 3 * (5 * (17 * rest));
    var g1 := Strip(c, g, 3, 5 * (17 * rest));
    var g2 := Strip(c, g1, 5, 17 * rest);
    var g3 := Strip(c, g2, 17, rest);
    LastFactor(c, g3, rest);
    return 257;
  }

  lemma LastFactor(c: nat, g: nat, rest: nat)
    requires c >= 2 && c * g == rest && rest in {1, 257}
    ensures rest == 257 && c == 257
  {
    assert g >= 1 ==> c * g >= c;
    if rest == 257 {
      Prime257(c, g);
    }
  }

  /** No power of x below the order is 1. */
  lemma NoSmallerPeriod(w: Width, d: nat)
    requires 1 <= d < Order(w)
    ensures XPow(w, d) != 1
  {
    hide XPow, Mul, PrimeFactors;
    if XPow(w, d) == 1 {
      OrderFacts(w);
      var g := PeriodGcd(w, d, Order(w));
      var p, e := PeriodPrime(w, g);
      RootFacts(w, p);
      assert false;
    }
  }

  lemma PeriodPrime(w: Width, g: nat) returns (p: nat, e: nat)
    requires 1 <= g < Order(w) && XPow(w, g) == 1 && Order(w) % g == 0
    ensures p in PrimeFactors(w) && e == Order(w) / p && XPow(w, e) == 1
  {
    hide XPow, Mul;
    var n := Order(w);
    var c := n / g;
    assert c * g == n;
    assert c <= 1 ==> c * g <= g;
    p := PrimeDivides(w, c, g);
    CofactorRoot(n, g, c, p);
    e := n / p;
    PeriodMultiple(w, g, c / p, e);
  }

  lemma CofactorRoot(n: nat, g: nat, c: nat, p: nat)
    requires c * g == n && p >= 1 && c % p == 0
    ensures n / p == g * (c / p)
  {
    var k := c / p;
    assert n == p * (g * k) by {
      assert c == p * k;
      assert (p * k) * g == p * (g * k);
    }
    MultipleOf(p, g * k);
  }

  // ----- All nonzero elements are powers -----

  lemma PowInjective(w: Width, i: nat, j: nat)
    requires i < j < Order(w)
    ensures XPow(w, i) != XPow(w, j)
  {
    hide XPow, Mul;
    var n := Order(w);
    OrderFacts(w);
    NoSmallerPeriod(w, j - i);
    if XPow(w, i) == XPow(w, j) {
      // multiply both by x^(n - i)
      XPowAdd(w, i, n - i);
      XPowAdd(w, j, n - i);
      XPowAdd(w, j - i, n);
      XPowRange(w, j - i);
      MulOne(w, XPow(w, j - i));
      assert false;
    }
  }

  lemma PowNonzero(w: Width, e: nat)
    ensures XPow(w, e) != 0
  {
    var n := Order(w);
    OrderFacts(w);
    hide XPow, Mul;
    var rest := (n - 1) * e;
    assert n * e == e + rest;
    PeriodMultiple(w, n, e, e + rest);
    XPowAdd(w, e, rest);
    MulZero(w, XPow(w, rest));
  }

  ghost function PowSet(w: Width, n: nat): set<nat> {
    if n == 0 then {} else PowSet(w, n - 1) + {XPow(w, n - 1)}
  }

  lemma {:induction false} PowSetMembers(w: Width, n: nat, a: nat)
    requires a in PowSet(w, n)
    ensures exists i :: 0 <= i < n && XPow(w, i) == a
  {
    if a != XPow(w, n - 1) {
      PowSetMembers(w, n - 1, a);
    }
  }

  ghost function UpTo(n: nat): (s: set<nat>)
    ensures forall a :: a in s <==> 1 <= a <= n
    ensures |s| == n
  {
    if n == 0 then {} else UpTo(n - 1) + {n}
  }

  lemma AddMember(s: set<nat>, a: nat)
    requires a !in s
    ensures |s + {a}| == |s| + 1
  {
  }

  lemma NewPower(w: Width, n: nat)
    requires n < Order(w)
    ensures XPow(w, n) !in PowSet(w, n) && 1 <= XPow(w, n) <= Order(w)
  {
    hide XPow, Mul;
    XPowRange(w, n);
    PowNonzero(w, n);
    if XPow(w, n) in PowSet(w, n) {
      PowSetMembers(w, n, XPow(w, n));
      var i :| 0 <= i < n && XPow(w, i) == XPow(w, n);
      PowInjective(w, i, n);
      assert false;
    }
  }

  lemma {:induction false} PowSetSize(w: Width, n: nat)
    requires n <= Order(w)
    ensures |PowSet(w, n)| == n && PowSet(w, n) <= UpTo(Order(w))
    decreases n
  {
    hide XPow, Mul, UpTo;
    if n != 0 {
      PowSetSize(w, n - 1);
      NewPower(w, n - 1);
      AddMember(PowSet(w, n - 1), XPow(w, n - 1));
    }
  }

  lemma SubsetOfSameSize(s: set<nat>, t: set<nat>)
    requires s <= t && |s| == |t|
    ensures s == t
  {
    if s < t {
      var a :| a in t && a !in s;
      SubsetSize(s + {a}, t);
      assert false;
    }
  }

  /** Every nonzero element is a power of 2: the logarithm exists. */
  lemma LogExists(w: Width, a: nat)
    requires 1 <= a < Size(w)
    ensures exists i :: 0 <= i < Order(w) && XPow(w, i) == a
  {
    PowSetSize(w, Order(w));
    SubsetOfSameSize(PowSet(w, Order(w)), UpTo(Order(w)));
    PowSetMembers(w, Order(w), a);
  }

  ghost function Log(w: Width, a: nat): (i: nat)
    requires 1 <= a < Size(w)
    ensures i < Order(w) && XPow(w, i) == a
  {
    LogExists(w, a);
    var i: nat :| 0 <= i < Order(w) && XPow(w, i) == a;
    i
  }

  /** The logarithm is the only exponent below the order. */
  lemma LogUnique(w: Width, a: nat, i: nat)
    requires 1 <= a < Size(w) && i < Order(w) && XPow(w, i) == a
    ensures Log(w, a) == i
  {
    var j := Log(w, a);
    if i < j {
      PowInjective(w, i, j);
    } else if j < i {
      PowInjective(w, j, i);
    }
  }

  // ----- Division -----

  lemma {:induction false} PowMod(w: Width, e: nat)
    ensures XPow(w, e) == XPow(w, e % Order(w))
    decreases e
  {
    hide XPow, Mul;
    if e >= Order(w) {
      PowMod(w, e - Order(w));
      FullTurn(w, e - Order(w));
    }
  }

  /** a / b, with the source's convention that dividing zero, or by zero, gives zero. */
  ghost function Div(w: Width, a: nat, b: nat): (r: nat)
    requires a < Size(w) && b < Size(w)
  {
    if a == 0 || b == 0 then 0
    else XPow(w, (Log(w, a) + Order(w) - Log(w, b)) % Order(w))
  }

  lemma DivRange(w: Width, a: nat, b: nat)
    requires a < Size(w) && b < Size(w)
    ensures Div(w, a, b) < Size(w)
  {
    hide XPow;
    if a != 0 && b != 0 {
      XPowRange(w, (Log(w, a) + Order(w) - Log(w, b)) % Order(w));
    }
  }

  /** Dividing and multiplying back gives the dividend. */
  lemma DivMul(w: Width, a: nat, b: nat)
    requires a < Size(w) && 1 <= b < Size(w)
    ensures Mul(w, Div(w, a, b), b) == a
  {
    hide Mul, XPow;
    if a == 0 {
      MulZero(w, b);
    } else {
      QuotientPower(w, a, b, Log(w, a), Log(w, b));
    }
  }

  lemma QuotientPower(w: Width, a: nat, b: nat, i: nat, j: nat)
    requires j < Order(w) && XPow(w, i) == a && XPow(w, j) == b
    ensures Mul(w, XPow(w, (i + Order(w) - j) % Order(w)), b) == a
  {
    hide XPow, Mul;
    PowMod(w, i + Order(w) - j);
    XPowAdd(w, i + Order(w) - j, j);
    FullTurn(w, i);
  }

  lemma FullTurn(w: Width, i: nat)
    ensures XPow(w, i + Order(w)) == XPow(w, i)
  {
    hide XPow, Mul;
    OrderFacts(w);
    XPowAdd(w, i, Order(w));
    XPowRange(w, i);
    MulOne(w, XPow(w, i));
  }

  lemma NoZeroDivisors(w: Width, a: nat, b: nat)
    requires 1 <= a < Size(w) && 1 <= b < Size(w)
    ensures Mul(w, a, b) != 0
  {
    XPowAdd(w, Log(w, a), Log(w, b));
    PowNonzero(w, Log(w, a) + Log(w, b));
  }

  /** Multiplying and dividing back gives the first factor. */
  lemma MulDiv(w: Width, a: nat, b: nat)
    requires a < Size(w) && 1 <= b < Size(w)
    ensures Mul(w, a, b) < Size(w) && Div(w, Mul(w, a, b), b) == a
  {
    MulRange(w, a, b);
    var c := Div(w, Mul(w, a, b), b);
    DivMul(w, Mul(w, a, b), b);
    DivRange(w, Mul(w, a, b), b);
    // (c + a) * b == 0
    MulComm(w, b, Xor(c, a));
    MulXor(w, b, c, a);
    MulComm(w, b, c);
    MulComm(w, b, a);
    XorSelf(Mul(w, a, b));
    XorRange(w, c, a);
    if Xor(c, a) != 0 {
      NoZeroDivisors(w, Xor(c, a), b);
      assert false;
    }
    XorZeroMeansEqual(c, a);
  }
}
