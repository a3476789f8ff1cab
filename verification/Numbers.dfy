/** Fixed-width unsigned numbers as the program writes them: most significant byte first. */
module Numbers {
  import opened Arithmetic
  import opened Gf2Poly
  import opened Bytes

  const SIZE_LIMIT: nat := 0x1_0000_0000_0000_0000

  /** The largest value of an int of 32 bits. */
  const INT_MAX: nat := 0x7FFF_FFFF

  /** What an unsigned 64-bit variable keeps of a number. */
  function Wrap64(n: nat): (r: nat)
    ensures r < SIZE_LIMIT && (n < SIZE_LIMIT ==> r == n)
  {
    n % SIZE_LIMIT
  }

  /** A number of n bytes, most significant first. */
  function BigEndian(s: seq<Byte>): nat {
    if |s| == 0 then 0 else 0x100 * BigEndian(s[..|s| - 1]) + s[|s| - 1]
  }

  /** The n low bytes of a number, most significant first. */
  function ToBigEndian(v: nat, n: nat): (s: seq<Byte>)
    ensures |s| == n
  {
    if n == 0 then [] else ToBigEndian(v / 0x100, n - 1) + [v % 0x100]
  }

  lemma {:induction false} BigEndianRoundTrip(v: nat, n: nat)
    ensures BigEndian(ToBigEndian(v, n)) == v % Pow2(8 * n)
    decreases n
  {
    if n == 0 {
      assert v % 1 == 0;
    } else {
      BigEndianRoundTrip(v / 0x100, n - 1);
      var s := ToBigEndian(v, n);
      assert s[..n - 1] == ToBigEndian(v / 0x100, n - 1);
      SplitMod(v, n);
    }
  }

  lemma SplitMod(v: nat, n: nat)
    requires n >= 1
    ensures v % Pow2(8 * n) == 0x100 * ((v / 0x100) % Pow2(8 * (n - 1))) + v % 0x100
  {
    var m := Pow2(8 * (n - 1));
    assert Pow2(8 * n) == 0x100 * m by {
      Pow2Add(8 * (n - 1), 8);
      assert Pow2(8) == 0x100;
    }
    hide Pow2;
    SplitModBy(v, m);
  }

  lemma SplitModBy(v: nat, m: nat)
    requires m >= 1
    ensures v % (0x100 * m) == 0x100 * ((v / 0x100) % m) + v % 0x100
  {
    var q, r, low := v / 0x100 / m, v / 0x100 % m, v % 0x100;
    assert v / 0x100 == m * q + r;
    assert v == (0x100 * m) * q + (0x100 * r + low);
    DivMod(v, 0x100 * m, q, 0x100 * r + low);
  }

  lemma {:induction false} BigEndianBound(s: seq<Byte>)
    ensures BigEndian(s) < Pow2(8 * |s|)
  {
    if |s| > 0 {
      var n := |s| - 1;
      BigEndianBound(s[..n]);
      Pow2Add(8 * n, 8);
      assert Pow2(8) == 0x100;
      assert 8 * |s| == 8 * n + 8;
      var v, m := BigEndian(s[..n]), Pow2(8 * n);
      hide Pow2;
      assert v + 1 <= m;
      assert Pow2(8 * |s|) == 0x100 * m;
    }
  }

  lemma PowersOfBytes()
    ensures Pow2(16) == 0x1_0000 && Pow2(64) == SIZE_LIMIT
  {
    assert Pow2(8) == 0x100;
    Pow2Add(8, 8);
    Pow2Add(16, 16);
    Pow2Add(32, 32);
  }

  lemma OneByte(v: nat)
    ensures ToBigEndian(v, 1) == [v % 0x100]
  {
    assert ToBigEndian(v / 0x100, 0) == [];
  }

  lemma TwoBytes(v: nat)
    ensures ToBigEndian(v, 2) == [(v / 0x100) % 0x100, v % 0x100]
  {
    BytesStep(v, 2);
    OneByte(v / 0x100);
  }

  lemma FourBytes(v: nat)
    ensures ToBigEndian(v, 4) ==
      [(v / 0x100_0000) % 0x100, (v / 0x1_0000) % 0x100, (v / 0x100) % 0x100, v % 0x100]
  {
    hide ToBigEndian;
    BytesStep(v, 4);
    BytesStep(v / 0x100, 3);
    TwoBytes(v / 0x1_0000);
    assert v / 0x100 / 0x100 == v / 0x1_0000;
    assert v / 0x1_0000 / 0x100 == v / 0x100_0000;
  }

  lemma EightBytes(v: nat)
    ensures ToBigEndian(v, 8) ==
      [(v / 0x100_0000_0000_0000) % 0x100, (v / 0x1_0000_0000_0000) % 0x100, (v / 0x100_0000_0000) % 0x100,
       (v / 0x1_0000_0000) % 0x100, (v / 0x100_0000) % 0x100, (v / 0x1_0000) % 0x100, (v / 0x100) % 0x100, v % 0x100]
  {
    hide ToBigEndian;
    BytesStep(v, 8);
    BytesStep(v / 0x100, 7);
    BytesStep(v / 0x1_0000, 6);
    BytesStep(v / 0x100_0000, 5);
    FourBytes(v / 0x1_0000_0000);
    DividedTwice(v);
  }

  lemma DividedTwice(v: nat)
    ensures v / 0x100 / 0x100 == v / 0x1_0000
    ensures v / 0x1_0000 / 0x100 == v / 0x100_0000
    ensures v / 0x100_0000 / 0x100 == v / 0x1_0000_0000
    ensures v / 0x1_0000_0000 / 0x100 == v / 0x100_0000_0000
    ensures v / 0x1_0000_0000 / 0x1_0000 == v / 0x1_0000_0000_0000
    ensures v / 0x1_0000_0000 / 0x100_0000 == v / 0x100_0000_0000_0000
  {
  }

  lemma BytesStep(v: nat, n: nat)
    requires n >= 1
    ensures ToBigEndian(v, n) == ToBigEndian(v / 0x100, n - 1) + [v % 0x100]
  {
  }

  /** One more byte shifted into a 64-bit number. */
  lemma WrapStep(x: nat, b: Byte)
    ensures Wrap64(0x100 * x + b) == Wrap64(Wrap64(x) * 0x100) + b
  {
    var q, r := x / SIZE_LIMIT, x % SIZE_LIMIT;
    var m := SIZE_LIMIT / 0x100;
    var h, l := r / m, r % m;
    assert r == m * h + l && h < 0x100;
    assert r * 0x100 == SIZE_LIMIT * h + 0x100 * l;
    DivMod(r * 0x100, SIZE_LIMIT, h, 0x100 * l);
    assert 0x100 * x + b == SIZE_LIMIT * (0x100 * q + h) + (0x100 * l + b);
    DivMod(0x100 * x + b, SIZE_LIMIT, 0x100 * q + h, 0x100 * l + b);
  }
}
