/**
  The class template gf<m> of kernel/vds_data/gf.h: a field element kept as a little-endian
  byte array and multiplied by an m-round shift-and-xor loop. The loop is proved, for every
  degree m and every modulus of that degree, to compute the remainder of the product of the
  two polynomials.
 */
module Gf {
  import opened Arithmetic
  import opened Gf2Poly
  import opened Bytes

  function ArraySize(m: nat): nat {
    (m + 7) / 8
  }

  /** The byte arrays of get_polynomial(): the modulus, cut to the width of an element. */
  function PolynomialBytes(m: nat): seq<Byte> {
    match m
    case 3 => [0x0b]
    case 8 => [0x1D]
    case 16 => [0x0B, 0x10]
    case 32 => [0x07, 0x00, 0x40, 0x00]
    case _ => []
  }

  /** The whole modulus, with its leading term. */
  function Modulus(m: nat): nat {
    match m
    case 3 => 0xb
    case 8 => 0x11D
    case 16 => 0x1100B
    case 32 => 0x1_0040_0007
    case _ => 1
  }

  /** What the byte array `poly` has to be for a modulus p of degree m. */
  ghost predicate Holds(m: nat, p: nat, poly: seq<Byte>) {
    && m >= 1
    && IsModulus(m, p)
    && |poly| == ArraySize(m)
    && Value(poly) == p % Pow2(8 * ArraySize(m))
  }

  lemma InstantiatedModuli(m: nat)
    requires m in {3, 8, 16, 32}
    ensures Holds(m, Modulus(m), PolynomialBytes(m))
  {
    PowersOfTwo();
    hide Pow2;
    if m <= 8 {
      ValueOfOne(0x0b);
      ValueOfOne(0x1D);
    } else if m == 16 {
      ValueOfTwo(0x0B, 0x10);
    } else if m == 32 {
      ValueOfTwo(0x07, 0x00);
      ValueOfTwo(0x40, 0x00);
      ValueAppend([0x07, 0x00], [0x40, 0x00]);
      assert [0x07, 0x00] + [0x40, 0x00] == PolynomialBytes(32);
    }
  }

  lemma PowersOfTwo()
    ensures Pow2(3) == 8 && Pow2(4) == 0x10 && Pow2(8) == 0x100 && Pow2(9) == 0x200
    ensures Pow2(16) == 0x1_0000 && Pow2(17) == 0x2_0000
    ensures Pow2(32) == 0x1_0000_0000 && Pow2(33) == 0x2_0000_0000
  {
    Pow2Add(8, 8);
    Pow2Add(16, 16);
    Pow2Add(16, 1);
    Pow2Add(32, 1);
    assert Pow2(8) == 0x100;
  }

  lemma ValueOfOne(a: Byte)
    ensures Value([a]) == a
  {
  }

  lemma ValueOfTwo(a: Byte, b: Byte)
    ensures Value([a, b]) == a + 0x100 * b
  {
    assert [a, b][1..] == [b];
    ValueOfOne(b);
  }

  method ExcludeOr(a: array<Byte>, b: array<Byte>)
    requires a.Length == b.Length && a != b
    modifies a
    ensures Value(a[..]) == Xor(old(Value(a[..])), Value(b[..]))
  {
    for i := 0 to a.Length
      invariant forall j :: 0 <= j < i ==> a[j] == Xor(old(a[j]), b[j])
      invariant forall j :: i <= j < a.Length ==> a[j] == old(a[j])
    {
      ByteXor(a[i], b[i]);
      a[i] := Xor(a[i], b[i]);
    }
    ValueXor(old(a[..]), b[..], a[..]);
  }

  /** The weight of a bit carried past the first n bytes. */
  ghost function Carry(carry: bool, n: nat): nat {
    if carry then Pow2(8 * n) else 0
  }

  /** Multiplies the stored number by two; the bit shifted out of the last byte is lost. */
  method ShiftLeft(a: array<Byte>)
    modifies a
    ensures Value(a[..]) == (2 * old(Value(a[..]))) % Pow2(8 * a.Length)
  {
    hide Value, Pow2;
    ghost var before := a[..];
    Zeros(a[..0]);
    var saveHiBit := false;
    for i := 0 to a.Length
      invariant Value(a[..i]) + Carry(saveHiBit, i) == 2 * Value(before[..i])
      invariant forall j :: i <= j < a.Length ==> a[j] == before[j]
    {
      var hiBit := a[i] >= 0x80;
      ghost var low := a[..i];
      a[i] := (2 * (a[i] as int)) % 0x100 + (if saveHiBit then 1 else 0);
      assert a[..i + 1] == low + [a[i]];
      assert before[..i + 1] == before[..i] + [before[i]];
      CarryUp(low, before[..i], before[i], a[i], saveHiBit, hiBit);
      saveHiBit := hiBit;
    }
    assert a[..a.Length] == a[..] && before[..a.Length] == before;
    ValueBound(a[..]);
    DropCarry(Value(a[..]), 2 * Value(before), Pow2(8 * a.Length), saveHiBit);
  }

  lemma CarryUp(low: seq<Byte>, lowBefore: seq<Byte>, before: Byte, after: Byte, carryIn: bool, carryOut: bool)
    requires |low| == |lowBefore|
    requires Value(low) + Carry(carryIn, |low|) == 2 * Value(lowBefore)
    requires carryOut <==> before >= 0x80
    requires after == (2 * (before as int)) % 0x100 + (if carryIn then 1 else 0)
    ensures Value(low + [after]) + Carry(carryOut, |low| + 1) == 2 * Value(lowBefore + [before])
  {
    hide Value, Pow2;
    NextByte(|low|);
    ValueSnoc(low, after);
    ValueSnoc(lowBefore, before);
    CarryDigit(Pow2(8 * |low|), before, after, carryIn, carryOut);
  }

  lemma NextByte(n: nat)
    ensures Pow2(8 * (n + 1)) == Pow2(8 * n) * 0x100
  {
    Pow2Add(8 * n, 8);
    assert Pow2(8) == 0x100;
  }

  lemma CarryDigit(unit: nat, before: Byte, after: Byte, carryIn: bool, carryOut: bool)
    requires carryOut <==> before >= 0x80
    requires after == (2 * (before as int)) % 0x100 + (if carryIn then 1 else 0)
    ensures unit * after + (if carryOut then unit * 0x100 else 0) == 2 * (unit * before) + (if carryIn then unit else 0)
  {
    var b: int, c: int := if carryOut then 1 else 0, if carryIn then 1 else 0;
    assert after + 0x100 * b == 2 * before + c;
    assert unit * (after + 0x100 * b) == unit * (2 * before + c);
  }

  lemma DropCarry(r: nat, v: nat, size: nat, carry: bool)
    requires r < size && r + (if carry then size else 0) == v
    ensures r == v % size
  {
    if carry {
      assert v == size * 1 + r;
    }
  }

  /** Halves the stored number, dropping the lowest bit. */
  method ShiftRight(a: array<Byte>)
    modifies a
    ensures Value(a[..]) == old(Value(a[..])) / 2
  {
    var saveLoBit := false;
    var i := a.Length;
    while i > 0
      invariant 0 <= i <= a.Length
      invariant a[..i] == old(a[..])[..i]
      invariant Value(a[i..]) == Value(old(a[..])[i..]) / 2
      invariant saveLoBit <==> Value(old(a[..])[i..]) % 2 == 1
    {
      assert a[i - 1] == a[..i][i - 1] == old(a[i - 1]);
      var loBit := a[i - 1] % 2 == 1;
      ghost var high := a[i..];
      a[i - 1] := a[i - 1] / 2 + (if saveLoBit then 0x80 else 0);
      assert a[i - 1..][1..] == high;
      assert old(a[..])[i - 1..][1..] == old(a[..])[i..];
      saveLoBit := loBit;
      i := i - 1;
    }
    assert a[0..] == a[..] && old(a[..])[0..] == old(a[..]);
  }

  // ----- The product -----

  /** One round: consuming the lowest bit of b keeps data + a * b in its residue class. */
  lemma LoopRound(m: nat, p: nat, data: nat, a: nat, b: nat, goal: nat)
    requires IsModulus(m, p) && a < Pow2(m)
    requires Congruent(p, Xor(data, Times(a, b)), goal)
    ensures Congruent(p, Xor(if b % 2 == 1 then Xor(data, a) else data, Times(TimesX(m, p, a), b / 2)), goal)
  {
    var a0 := if b % 2 == 1 then a else 0;
    var data' := if b % 2 == 1 then Xor(data, a) else data;
    XorComm(data, 0);
    assert data' == Xor(data, a0);
    TimesXCongruent(m, p, a);
    CongruentTimes(p, TimesX(m, p, a), 2 * a, b / 2);
    CongruentRefl(p, data');
    CongruentXor(p, data', data', Times(TimesX(m, p, a), b / 2), Times(2 * a, b / 2));
    TimesDoubleLeft(a, b / 2);
    XorAssoc(data, a0, 2 * Times(a, b / 2));
    TimesStep(a, b);
    CongruentTrans(p, Xor(data', Times(TimesX(m, p, a), b / 2)), Xor(data, Times(a, b)), goal);
  }

  /** The test of the high bit asks whether doubling leaves the degree bound. */
  lemma HiBit(m: nat, s: seq<Byte>)
    requires m >= 1 && |s| == ArraySize(m) && Value(s) < Pow2(m)
    ensures (s[(m - 1) / 8] / Pow2((m - 1) % 8)) % 2 == 1 <==> 2 * Value(s) >= Pow2(m)
  {
    var n := |s| - 1;
    var mask := Pow2((m - 1) % 8);
    assert n == (m - 1) / 8 && m - 1 == 8 * n + (m - 1) % 8;
    assert s == s[..n] + [s[n]];
    ValueSnoc(s[..n], s[n]);
    ValueBound(s[..n]);
    Pow2Add(8 * n, (m - 1) % 8);
    assert Pow2(m) == 2 * Pow2(m - 1);
    LeadingDigit(Value(s[..n]), s[n], Pow2(8 * n), mask);
  }

  lemma LeadingDigit(low: nat, last: nat, unit: nat, mask: nat)
    requires mask >= 1 && low < unit && low + unit * last < 2 * (unit * mask)
    ensures (last / mask) % 2 == 1 <==> low + unit * last >= unit * mask
  {
    assert last >= 2 * mask ==> unit * last >= unit * (2 * mask);
    if last >= mask {
      assert unit * last >= unit * mask;
      DivMod(last, mask, 1, last - mask);
    } else {
      assert unit * last <= unit * (mask - 1);
      DivMod(last, mask, 0, last);
    }
  }

  /** Shifting in place and adding the stored polynomial is one multiplication by x. */
  lemma ShiftAndReduce(m: nat, p: nat, poly: seq<Byte>, a: nat)
    requires Holds(m, p, poly) && a < Pow2(m)
    ensures var shifted := (2 * a) % Pow2(8 * ArraySize(m));
            TimesX(m, p, a) == if 2 * a >= Pow2(m) then Xor(shifted, Value(poly)) else shifted
  {
    var width := 8 * ArraySize(m);
    Pow2Monotone(m, width);
    if 2 * a < Pow2(m) {
      SmallMod(2 * a, Pow2(width));
    } else if m == width {
      var r, low := 2 * a - Pow2(m), p - Pow2(m);
      assert 2 * a == 1 * Pow2(m) + r && p == 1 * Pow2(m) + low;
      DropCarry(r, 2 * a, Pow2(m), true);
      DropCarry(low, p, Pow2(m), true);
      XorSplit(m, 1, r, 1, low);
      XorSelf(1);
    } else {
      Pow2Monotone(m + 1, width);
      SmallMod(2 * a, Pow2(width));
      SmallMod(p, Pow2(width));
    }
  }

  lemma SmallMod(a: nat, n: nat)
    requires a < n
    ensures a % n == a
  {
  }

  lemma HalvedAway(b: nat, i: nat)
    ensures b / Pow2(i) / 2 == b / Pow2(i + 1)
  {
    assert Pow2(i + 1) == 2 * Pow2(i);
    hide Pow2;
    HalvedBy(b, Pow2(i));
  }

  lemma HalvedBy(b: nat, n: nat)
    requires n >= 1
    ensures b / n / 2 == b / (2 * n)
  {
    var q, r := b / n, b % n;
    var bit := q % 2;
    assert b == n * q + r && q == 2 * (q / 2) + bit;
    assert n * q == (2 * n) * (q / 2) + n * bit;
    assert n * bit + r < 2 * n;
    DivMod(b, 2 * n, q / 2, n * bit + r);
  }

  lemma LowBit(s: seq<Byte>)
    requires |s| >= 1
    ensures Value(s) % 2 == s[0] % 2
  {
    assert Value(s) == s[0] + 2 * (0x80 * Value(s[1..]));
  }

  /** The body of the multiplication loop. */
  method Round(m: nat, ghost p: nat, poly: array<Byte>, data: array<Byte>, a: array<Byte>, b: array<Byte>)
    requires Holds(m, p, poly[..])
    requires data.Length == a.Length == b.Length == ArraySize(m)
    requires data != a && data != b && data != poly && a != b && a != poly && b != poly
    requires Value(data[..]) < Pow2(m) && Value(a[..]) < Pow2(m)
    modifies data, a, b
    ensures Value(data[..]) == old(if Value(b[..]) % 2 == 1 then Xor(Value(data[..]), Value(a[..])) else Value(data[..]))
    ensures Value(a[..]) == TimesX(m, p, old(Value(a[..])))
    ensures Value(b[..]) == old(Value(b[..])) / 2
  {
    hide Xor, TimesX, Pow2;
    LowBit(b[..]);
    if b[0] % 2 == 1 {
      ExcludeOr(data, a);
    }
    HiBit(m, a[..]);
    ShiftAndReduce(m, p, poly[..], Value(a[..]));
    var hiBitSet := (a[(m - 1) / 8] / Pow2((m - 1) % 8)) % 2 == 1;
    ShiftLeft(a);
    if hiBitSet {
      ExcludeOr(a, poly);
    }
    ShiftRight(b);
  }

  /** gf<m>::operator*: the product of two elements is the remainder of the product of polynomials. */
  method Multiply(m: nat, ghost p: nat, poly: seq<Byte>, left: seq<Byte>, right: seq<Byte>) returns (product: seq<Byte>)
    requires Holds(m, p, poly)
    requires |left| == |right| == ArraySize(m)
    requires Value(left) < Pow2(m) && Value(right) < Pow2(m)
    ensures |product| == ArraySize(m)
    ensures Value(product) == Reduce(m, p, Times(Value(left), Value(right)))
  {
    var size := ArraySize(m);
    var a := new Byte[size](i requires 0 <= i < size => left[i]);
    var b := new Byte[size](i requires 0 <= i < size => right[i]);
    var data := new Byte[size](i => 0);
    var polynomial := new Byte[size](i requires 0 <= i < size => poly[i]);
    assert a[..] == left && b[..] == right && polynomial[..] == poly;
    ghost var goal := Times(Value(left), Value(right));
    Zeros(data[..]);
    RoundsStart(m, p, Value(left), Value(right));
    hide *;
    for i := 0 to m
      invariant polynomial[..] == poly
      invariant RoundsKeep(m, p, i, Value(data[..]), Value(a[..]), Value(b[..]), Value(right), goal)
    {
      NextRound(m, p, i, Value(data[..]), Value(a[..]), Value(b[..]), Value(right), goal);
      Round(m, p, polynomial, data, a, b);
    }
    product := data[..];
    Finished(m, p, Value(product), Value(a[..]), Value(b[..]), Value(right), goal);
  }

  /** After i rounds: what is left of b is still owed to the sum. */
  ghost predicate RoundsKeep(m: nat, p: nat, i: nat, sum: nat, a: nat, b: nat, right: nat, goal: nat) {
    && a < Pow2(m) && sum < Pow2(m)
    && b == right / Pow2(i)
    && Congruent(p, Xor(sum, Times(a, b)), goal)
  }

  lemma RoundsStart(m: nat, p: nat, left: nat, right: nat)
    requires left < Pow2(m)
    ensures RoundsKeep(m, p, 0, 0, left, right, right, Times(left, right))
  {
    CongruentRefl(p, Times(left, right));
  }

  lemma NextRound(m: nat, p: nat, i: nat, sum: nat, a: nat, b: nat, right: nat, goal: nat)
    requires IsModulus(m, p) && m >= 1 && RoundsKeep(m, p, i, sum, a, b, right, goal)
    ensures a < Pow2(m) && sum < Pow2(m)
    ensures RoundsKeep(m, p, i + 1, if b % 2 == 1 then Xor(sum, a) else sum, TimesX(m, p, a), b / 2, right, goal)
  {
    LoopRound(m, p, sum, a, b, goal);
    XorBound(sum, a, m);
    TimesXCongruent(m, p, a);
    HalvedAway(right, i);
    hide Xor, TimesX, Times, Congruent, Pow2;
  }

  /** After m rounds nothing of the right factor is left, and the sum is the reduced product. */
  lemma Finished(m: nat, p: nat, sum: nat, a: nat, b: nat, right: nat, goal: nat)
    requires IsModulus(m, p) && m >= 1 && right < Pow2(m)
    requires RoundsKeep(m, p, m, sum, a, b, right, goal)
    ensures sum == Reduce(m, p, goal)
  {
    DivMod(right, Pow2(m), 0, right);
    TimesZeroRight(a);
    XorComm(sum, 0);
    XorZero(sum);
    hide Congruent, Pow2, Xor, Times;
    ReduceCongruent(m, p, sum, goal);
    ReduceSmall(m, p, sum);
  }

  lemma {:induction false} Zeros(s: seq<Byte>)
    requires forall i :: 0 <= i < |s| ==> s[i] == 0
    ensures Value(s) == 0
  {
    if |s| != 0 {
      Zeros(s[1..]);
    }
  }
}
