/** Bytes and the fixed-width numbers the program stores in them. */
module Bytes {
  import opened Gf2Poly

  type Byte = x: nat | x < 0x100

  /** isspace, in the C locale. */
  predicate IsSpace(b: Byte) {
    b == 32 || 9 <= b <= 13
  }

  /** The six bytes that isspace accepts. */
  const BLANKS: set<Byte> := {0x20, 0x09, 0x0A, 0x0B, 0x0C, 0x0D}

  ghost predicate AllBlank(s: seq<Byte>) {
    forall b :: b in s ==> b in BLANKS
  }

  const DIGIT_0: Byte := 48

  /** isdigit. */
  predicate IsDigit(b: Byte) {
    DIGIT_0 <= b < DIGIT_0 + 10
  }

  /** The number held by a byte array whose first byte is the least significant one (gf.h). */
  function Value(s: seq<Byte>): nat {
    if |s| == 0 then 0 else s[0] + 0x100 * Value(s[1..])
  }

  lemma {:induction false} ValueAppend(s: seq<Byte>, t: seq<Byte>)
    ensures Value(s + t) == Value(s) + Pow2(8 * |s|) * Value(t)
  {
    if |s| == 0 {
      assert s + t == t;
    } else {
      assert (s + t)[1..] == s[1..] + t;
      ValueAppend(s[1..], t);
      Pow2Add(8, 8 * |s[1..]|);
      assert Pow2(8) == 0x100;
      assert Pow2(8 * |s|) == 0x100 * Pow2(8 * |s[1..]|);
      assert 0x100 * (Pow2(8 * |s[1..]|) * Value(t)) == Pow2(8 * |s|) * Value(t);
    }
  }

  lemma ValueSnoc(s: seq<Byte>, b: Byte)
    ensures Value(s + [b]) == Value(s) + Pow2(8 * |s|) * b
  {
    ValueAppend(s, [b]);
    assert [b][1..] == [];
    assert Value([b]) == b;
  }

  lemma {:induction false} ValueBound(s: seq<Byte>)
    ensures Value(s) < Pow2(8 * |s|)
  {
    if |s| != 0 {
      ValueBound(s[1..]);
      Pow2Add(8, 8 * |s[1..]|);
      assert Pow2(8) == 0x100;
    }
  }

  lemma {:induction false} ValueXor(s: seq<Byte>, t: seq<Byte>, r: seq<Byte>)
    requires |s| == |t| == |r|
    requires forall i :: 0 <= i < |s| ==> r[i] == Xor(s[i], t[i])
    ensures Value(r) == Xor(Value(s), Value(t))
  {
    if |s| != 0 {
      ValueXor(s[1..], t[1..], r[1..]);
      assert Pow2(8) == 0x100;
      var x, y, z := Value(s[1..]), Value(t[1..]), Value(r[1..]);
      assert Value(s) == s[0] + 0x100 * x && Value(t) == t[0] + 0x100 * y && Value(r) == r[0] + 0x100 * z;
      hide *;
      XorSplit(8, x, s[0], y, t[0]);
    }
  }

  lemma ByteXor(a: Byte, b: Byte)
    ensures Xor(a, b) < 0x100
  {
    assert Pow2(8) == 0x100;
    XorBound(a, b, 8);
  }
}
