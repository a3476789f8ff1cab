/**
  base64::from_bytes and base64::to_bytes of kernel/vds_core/encoding.cpp (section 4 of
  RFC 4648), with the 32-bit accumulator that the decoder never resets.
 */
module Base64 {
  import opened Arithmetic
  import opened Bytes
  import opened Wrappers

  type Text = seq<Byte>

  const PAD: Byte := 0x3D
  const UINT32: nat := 0x1_0000_0000

  const UPPER: string := "ABCDEFGHIJKLMNOPQRSTUVWXYZ"
  const LOWER: string := "abcdefghijklmnopqrstuvwxyz"
  const OTHERS: string := "0123456789+/"
  const ENCODE_LOOKUP: string := UPPER + LOWER + OTHERS

  type Sextet = x: nat | x < 64

  // ----- The alphabet -----

  function Letter(v: Sextet): Byte {
    if v < 26 then 0x41 + v
    else if v < 52 then 0x61 + (v - 26)
    else if v < 62 then 0x30 + (v - 52)
    else if v == 62 then 0x2B
    else 0x2F
  }

  lemma UpperLetters(v: nat)
    requires v < 26
    ensures |UPPER| == 26 && UPPER[v] as int == 0x41 + v
  {
  }

  lemma LowerLetters(v: nat)
    requires v < 26
    ensures |LOWER| == 26 && LOWER[v] as int == 0x61 + v
  {
  }

  lemma OtherLetters(v: nat)
    requires v < 12
    ensures |OTHERS| == 12 && OTHERS[v] as int == (if v < 10 then 0x30 + v else if v == 10 then 0x2B else 0x2F)
  {
  }

  lemma LookupIsLetter(v: Sextet)
    ensures |ENCODE_LOOKUP| == 64 && ENCODE_LOOKUP[v] as int == Letter(v)
  {
    UpperLetters(if v < 26 then v else 0);
    LowerLetters(if 26 <= v < 52 then v - 26 else 0);
    OtherLetters(if 52 <= v then v - 52 else 0);
    var upper, lower, others := UPPER, LOWER, OTHERS;
    assert (upper + lower + others)[v] == if v < 26 then upper[v] else if v < 52 then lower[v - 26] else others[v - 52];
  }

  /** The range tests of the decoder. */
  function Digit(ch: Byte): Option<Sextet> {
    if 0x41 <= ch <= 0x5A then Some(ch - 0x41)
    else if 0x61 <= ch <= 0x7A then Some(ch - 0x47)
    else if 0x30 <= ch <= 0x39 then Some(ch + 0x04)
    else if ch == 0x2B then Some(0x3E)
    else if ch == 0x2F then Some(0x3F)
    else None
  }

  /** Exactly the 64 letters are digits. */
  lemma LettersAreDigits(ch: Byte, v: Sextet)
    ensures Digit(ch) == Some(v) <==> ch == Letter(v)
  {
  }

  // ----- Arithmetic -----

  lemma Nested(v: nat)
    ensures v / 0x1000 == v / 0x40 / 0x40 && v / 0x4_0000 == v / 0x40 / 0x40 / 0x40
  {
  }

  // ----- Groups of three bytes and four letters -----

  function Pack(a: Byte, b: Byte, c: Byte): (v: nat)
    ensures v < 0x100_0000
  {
    a * 0x1_0000 + b * 0x100 + c
  }

  function Unpack(v: nat): (s: seq<Byte>)
    ensures |s| == 3
  {
    [v / 0x1_0000 % 0x100, v / 0x100 % 0x100, v % 0x100]
  }

  function Letters(v: nat): (s: Text)
    ensures |s| == 4
  {
    [Letter(v / 0x4_0000 % 0x40), Letter(v / 0x1000 % 0x40), Letter(v / 0x40 % 0x40), Letter(v % 0x40)]
  }

  function Digits(s: Text): (v: Option<nat>)
    ensures v.Some? <==> forall i :: 0 <= i < |s| ==> Digit(s[i]).Some?
  {
    if |s| == 0 then Some(0)
    else
      match (Digits(s[..|s| - 1]), Digit(s[|s| - 1]))
      case (Some(v), Some(d)) => Some(0x40 * v + d)
      case (_, _) => None
  }

  // ----- Whole texts -----

  /** The first n groups of three bytes. */
  function EncodeGroups(data: seq<Byte>, n: nat): (s: Text)
    requires 3 * n <= |data|
    ensures |s| == 4 * n
  {
    if n == 0 then []
    else EncodeGroups(data, n - 1) + Letters(Pack(data[3 * n - 3], data[3 * n - 2], data[3 * n - 1]))
  }

  function Rest(data: seq<Byte>): Text
    requires |data| < 3
  {
    if |data| == 1 then Letters(Pack(data[0], 0, 0))[..2] + [PAD, PAD]
    else if |data| == 2 then Letters(Pack(data[0], data[1], 0))[..3] + [PAD]
    else []
  }

  function Encode(data: seq<Byte>): Text {
    var n := |data| / 3;
    EncodeGroups(data, n) + Rest(data[3 * n..])
  }

  predicate AllLetters(s: Text, n: nat)
    requires n <= |s|
  {
    forall i :: 0 <= i < n ==> Digit(s[i]).Some?
  }

  /** The first n groups of four letters. */
  function DecodeGroups(s: Text, n: nat): (data: seq<Byte>)
    requires 4 * n <= |s| && AllLetters(s, 4 * n)
    ensures |data| == 3 * n
  {
    if n == 0 then []
    else DecodeGroups(s, n - 1) + Unpack(Digits(s[4 * n - 4..4 * n]).value)
  }

  /** The number of pad characters at the end, at most two. */
  function Padding(s: Text): (p: nat)
    ensures p <= 2 && p <= |s|
  {
    if |s| > 0 && s[|s| - 1] == PAD then if |s| > 1 && s[|s| - 2] == PAD then 2 else 1 else 0
  }

  /** The first character that is not a letter of the alphabet. */
  function Stop(s: Text): (p: nat)
    ensures p <= |s| && (p < |s| ==> Digit(s[p]).None?)
    ensures AllLetters(s, p)
  {
    if |s| == 0 || Digit(s[0]).None? then 0 else 1 + Stop(s[1..])
  }

  /** Pad characters stand only at the end. */
  predicate WellPadded(s: Text) {
    |s| % 4 == 0 && Stop(s) == |s| - Padding(s)
  }

  function Decode(s: Text): seq<Byte>
    requires WellPadded(s)
  {
    var n, p := |s| / 4, Padding(s);
    if p == 0 then DecodeGroups(s, n)
    else
      var v := Digits(s[4 * n - 4..4 * n - p]).value;
      DecodeGroups(s, n - 1) + if p == 1 then Unpack(0x40 * v)[..2] else Unpack(0x1000 * v)[..1]
  }

  // ----- The round trip -----

  lemma LettersRead(v: nat)
    requires v < 0x100_0000
    ensures Digits(Letters(v)) == Some(v)
    ensures Digits(Letters(v)[..3]) == Some(v / 0x40) && Digits(Letters(v)[..2]) == Some(v / 0x1000)
  {
    var a, b, c, d := v / 0x4_0000, v / 0x1000 % 0x40, v / 0x40 % 0x40, v % 0x40;
    Nested(v);
    assert 0x40 * a + b == v / 0x1000 && 0x40 * (v / 0x1000) + c == v / 0x40 && 0x40 * (v / 0x40) + d == v;
    assert a < 0x40 && a % 0x40 == a;
    FourLetters(a, b, c, d);
    assert Letters(v) == [Letter(a), Letter(b), Letter(c), Letter(d)];
  }

  lemma FourLetters(a: Sextet, b: Sextet, c: Sextet, d: Sextet)
    ensures var s := [Letter(a), Letter(b), Letter(c), Letter(d)];
      && Digits(s[..2]) == Some(0x40 * a + b)
      && Digits(s[..3]) == Some(0x40 * (0x40 * a + b) + c)
      && Digits(s) == Some(0x40 * (0x40 * (0x40 * a + b) + c) + d)
  {
    var s := [Letter(a), Letter(b), Letter(c), Letter(d)];
    LettersAreDigits(s[0], a);
    LettersAreDigits(s[1], b);
    LettersAreDigits(s[2], c);
    LettersAreDigits(s[3], d);
    assert Digits([]) == Some(0);
    hide *;
    assert s[..0] == [] && s[..4] == s;
    DigitsSnoc(s, 0);
    DigitsSnoc(s, 1);
    DigitsSnoc(s, 2);
    DigitsSnoc(s, 3);
  }

  lemma DigitsSnoc(s: Text, n: nat)
    requires n < |s| && Digit(s[n]).Some? && Digits(s[..n]).Some?
    ensures Digits(s[..n + 1]) == Some(0x40 * Digits(s[..n]).value + Digit(s[n]).value)
  {
    assert s[..n + 1][..n] == s[..n];
  }

  lemma {:induction false} DecodePrefix(s: Text, t: Text, n: nat)
    requires 4 * n <= |s| && s <= t && AllLetters(s, 4 * n)
    ensures AllLetters(t, 4 * n) && DecodeGroups(t, n) == DecodeGroups(s, n)
  {
    hide Digit, Digits, Unpack;
    if n != 0 {
      DecodePrefix(s, t, n - 1);
      assert s[4 * n - 4..4 * n] == t[4 * n - 4..4 * n];
    }
  }

  lemma {:induction false} GroupsComeBack(data: seq<Byte>, n: nat)
    requires 3 * n <= |data|
    ensures AllLetters(EncodeGroups(data, n), 4 * n) && DecodeGroups(EncodeGroups(data, n), n) == data[..3 * n]
  {
    hide Pack, Unpack, Letters, Digit, Digits;
    if n != 0 {
      var v := Pack(data[3 * n - 3], data[3 * n - 2], data[3 * n - 1]);
      var s, last := EncodeGroups(data, n - 1), Letters(v);
      var all := EncodeGroups(data, n);
      GroupsComeBack(data, n - 1);
      LettersRead(v);
      UnpackPack(data[3 * n - 3], data[3 * n - 2], data[3 * n - 1]);
      assert all == s + last && all[4 * n - 4..4 * n] == last;
      DecodePrefix(s, all, n - 1);
      forall i | 4 * n - 4 <= i < 4 * n ensures Digit(all[i]).Some? {
        assert all[i] == last[i - (4 * n - 4)];
      }
    }
  }

  lemma UnpackPack(a: Byte, b: Byte, c: Byte)
    ensures Unpack(Pack(a, b, c)) == [a, b, c]
  {
    var v := Pack(a, b, c);
    DivMod(v, 0x1_0000, a, b * 0x100 + c);
    DivMod(v, 0x100, a * 0x100 + b, c);
    DivMod(a * 0x100 + b, 0x100, a, b);
  }

  lemma {:induction false} StopAt(s: Text, p: nat)
    requires p <= |s| && (p < |s| ==> Digit(s[p]).None?)
    requires forall i :: 0 <= i < p ==> Digit(s[i]).Some?
    ensures Stop(s) == p
  {
    if p > 0 {
      StopAt(s[1..], p - 1);
    }
  }

  lemma PaddedParts(s: Text, code: Text, p: nat)
    requires AllLetters(s, |s|) && AllLetters(code, |code|) && 1 <= p <= 2 && |code| == 4 - p
    ensures var all := s + (code + if p == 1 then [PAD] else [PAD, PAD]);
            Padding(all) == p && Stop(all) == |all| - p
  {
    hide Digits;
    var pads := if p == 1 then [PAD] else [PAD, PAD];
    var all := s + (code + pads);
    var n := |all| - p;
    forall i | 0 <= i < n ensures Digit(all[i]).Some? {
      assert all[i] == if i < |s| then s[i] else code[i - |s|];
    }
    assert all[n] == PAD && all[|all| - 1] == PAD;
    assert p == 1 ==> all[|all| - 2] == code[2];
    StopAt(all, n);
  }

  /** The bytes that stand for the last letters before the pad characters. */
  function Leftover(rest: seq<Byte>): seq<Byte>
    requires 1 <= |rest| < 3
  {
    if |rest| == 1 then Unpack(0x1000 * (Pack(rest[0], 0, 0) / 0x1000))[..1]
    else Unpack(0x40 * (Pack(rest[0], rest[1], 0) / 0x40))[..2]
  }

  /** What is left after the complete groups becomes the two padded forms. */
  lemma RestPadded(s: Text, n: nat, rest: seq<Byte>)
    requires 1 <= |rest| < 3 && |s| == 4 * n && AllLetters(s, |s|)
    ensures WellPadded(s + Rest(rest))
    ensures Decode(s + Rest(rest)) == DecodeGroups(s, n) + Leftover(rest)
  {
    var v := if |rest| == 1 then Pack(rest[0], 0, 0) else Pack(rest[0], rest[1], 0);
    var p := 3 - |rest|;
    LettersRead(v);
    var code := Letters(v)[..4 - p];
    assert Rest(rest) == code + if p == 1 then [PAD] else [PAD, PAD];
    assert Leftover(rest) == if p == 1 then Unpack(0x40 * (v / 0x40))[..2] else Unpack(0x1000 * (v / 0x1000))[..1];
    hide Pack, Letters, Rest, Leftover;
    PaddedDecoded(s, n, code, p);
  }

  /** A text with its pad characters and the parts of it that the decoder looks at. */
  lemma PaddedShape(s: Text, n: nat, code: Text, p: nat)
    requires |s| == 4 * n && AllLetters(s, |s|) && 1 <= p <= 2 && |code| == 4 - p && Digits(code).Some?
    ensures var all := s + (code + if p == 1 then [PAD] else [PAD, PAD]);
      && WellPadded(all) && Padding(all) == p && |all| / 4 == n + 1
      && all[4 * n..4 * n + 4 - p] == code && s <= all
  {
    var all := s + (code + if p == 1 then [PAD] else [PAD, PAD]);
    PaddedParts(s, code, p);
    hide Digits, Digit, Stop, Padding;
    assert |all| == 4 * (n + 1);
  }

  lemma PaddedDecoded(s: Text, n: nat, code: Text, p: nat)
    requires |s| == 4 * n && AllLetters(s, |s|) && 1 <= p <= 2 && |code| == 4 - p && Digits(code).Some?
    ensures var all := s + (code + if p == 1 then [PAD] else [PAD, PAD]);
      && WellPadded(all)
      && Decode(all) == DecodeGroups(s, n)
                        + if p == 1 then Unpack(0x40 * Digits(code).value)[..2] else Unpack(0x1000 * Digits(code).value)[..1]
  {
    var all := s + (code + if p == 1 then [PAD] else [PAD, PAD]);
    PaddedShape(s, n, code, p);
    DecodePrefix(s, all, n);
    hide WellPadded, Stop, Padding, Digits, Digit, Unpack, DecodeGroups, AllLetters;
    DecodeOfShape(all, n, code, p);
  }

  lemma DecodeOfShape(all: Text, n: nat, code: Text, p: nat)
    requires WellPadded(all) && Padding(all) == p && 1 <= p <= 2 && |all| / 4 == n + 1 && |all| >= 4 * n + 4
    requires all[4 * n..4 * n + 4 - p] == code && AllLetters(all, 4 * n) && Digits(code).Some?
    ensures Decode(all) == DecodeGroups(all, n)
              + if p == 1 then Unpack(0x40 * Digits(code).value)[..2] else Unpack(0x1000 * Digits(code).value)[..1]
  {
    hide WellPadded, Stop, Padding, Digits, Digit, Unpack, DecodeGroups, AllLetters;
    assert 4 * (n + 1) - 4 == 4 * n && 4 * (n + 1) - p == 4 * n + 4 - p;
  }

  lemma RestUnpacked(rest: seq<Byte>)
    requires 1 <= |rest| <= 2
    ensures Leftover(rest) == rest
  {
    var a, b := rest[0], if |rest| == 2 then rest[1] else 0;
    UnpackPack(a, b, 0);
    PackParts(a, b);
    hide Unpack, Pack;
  }

  lemma PackParts(a: Byte, b: Byte)
    ensures 0x1000 * (Pack(a, 0, 0) / 0x1000) == Pack(a, 0, 0)
    ensures 0x40 * (Pack(a, b, 0) / 0x40) == Pack(a, b, 0)
  {
    var x: int, y: int := a, b;
    DivMod(Pack(a, 0, 0), 0x1000, 0x10 * x, 0);
    DivMod(Pack(a, b, 0), 0x40, 0x400 * x + 4 * y, 0);
  }

  /** Every byte string comes back. */
  lemma RoundTrip(data: seq<Byte>)
    ensures WellPadded(Encode(data)) && Decode(Encode(data)) == data
  {
    var n := |data| / 3;
    var rest := data[3 * n..];
    GroupsComeBack(data, n);
    assert Encode(data) == EncodeGroups(data, n) + Rest(rest) && data[..3 * n] + rest == data;
    hide *;
    GroupsAndRest(EncodeGroups(data, n), n, rest);
  }

  lemma GroupsAndRest(s: Text, n: nat, rest: seq<Byte>)
    requires |rest| < 3 && |s| == 4 * n && AllLetters(s, |s|)
    ensures WellPadded(s + Rest(rest)) && Decode(s + Rest(rest)) == DecodeGroups(s, n) + rest
  {
    if |rest| == 0 {
      NoRest(s, n);
    } else {
      RestPadded(s, n, rest);
      RestUnpacked(rest);
    }
    hide *;
    assert DecodeGroups(s, n) + [] == DecodeGroups(s, n);
  }

  lemma NoRest(s: Text, n: nat)
    requires |s| == 4 * n && AllLetters(s, |s|)
    ensures s + Rest([]) == s && WellPadded(s) && Decode(s) == DecodeGroups(s, n)
  {
    StopAt(s, |s|);
    assert n == |s| / 4;
    assert |s| > 0 ==> Digit(s[|s| - 1]).Some?;
    hide DecodeGroups;
  }

  // ----- The loops -----

  /** from_bytes. */
  method FromBytes(data: seq<Byte>) returns (s: Text)
    ensures s == Encode(data)
  {
    hide Letters;
    var len, pos := |data|, 0;
    ghost var n := 0;
    s := [];
    while 2 < len
      invariant pos == 3 * n <= |data| && pos + len == |data|
      invariant s == EncodeGroups(data, n)
    {
      var temp := data[pos] as int * 0x1_0000;
      temp := temp + data[pos + 1] as int * 0x100;
      temp := temp + data[pos + 2];
      s := PutLetters(s, temp, 4);
      pos := pos + 3;
      len := len - 3;
      n := n + 1;
    }
    assert n == |data| / 3;
    if len == 1 {
      s := PutLetters(s, data[pos] as int * 0x1_0000, 2);
      s := s + [PAD, PAD];
    } else if len == 2 {
      var temp := data[pos] as int * 0x1_0000;
      temp := temp + data[pos + 1] as int * 0x100;
      s := PutLetters(s, temp, 3);
      s := s + [PAD];
    }
  }

  /** The first letters of a group, looked up in the table. */
  method PutLetters(s: Text, temp: nat, count: nat) returns (s': Text)
    requires temp < 0x100_0000 && 2 <= count <= 4
    ensures s' == s + if count == 4 then Letters(temp) else Letters(temp)[..count]
  {
    LookupIsLetter(temp / 0x4_0000 % 0x40);
    LookupIsLetter(temp / 0x1000 % 0x40);
    LookupIsLetter(temp / 0x40 % 0x40);
    LookupIsLetter(temp % 0x40);
    hide Letter;
    s' := s + [ENCODE_LOOKUP[temp / 0x4_0000 % 0x40] as int];
    s' := s' + [ENCODE_LOOKUP[temp / 0x1000 % 0x40] as int];
    if count > 2 {
      s' := s' + [ENCODE_LOOKUP[temp / 0x40 % 0x40] as int];
    }
    if count > 3 {
      s' := s' + [ENCODE_LOOKUP[temp % 0x40] as int];
    }
  }

  predicate Accepted(s: Text) {
    |s| % 4 == 0 && (Stop(s) < |s| ==> s[Stop(s)] == PAD && Padding(s) > 0)
  }

  function Power(quantum: nat): (r: nat)
    requires quantum <= 4
    ensures r > 0
  {
    [1, 0x40, 0x1000, 0x4_0000, 0x100_0000][quantum]
  }

  /** One more letter in the accumulator: the letters of the group stand in its low bits. */
  lemma ShiftIn(temp: nat, v: nat, d: Sextet, quantum: nat)
    requires quantum < 4 && temp % Power(quantum) == v
    ensures (temp * 0x40 % UINT32 + d) % Power(quantum + 1) == 0x40 * v + d
  {
    var t := temp * 0x40 % UINT32;
    match quantum
    case 0 => ShiftModulo(temp, 1, 0x400_0000, d);
    case 1 => ShiftModulo(temp, 0x40, 0x10_0000, d);
    case 2 => ShiftModulo(temp, 0x1000, 0x4000, d);
    case 3 => ShiftModulo(temp, 0x4_0000, 0x100, d);
  }

  lemma ShiftModulo(temp: nat, power: nat, cofactor: nat, d: Sextet)
    requires power > 0 && 0x40 * power * cofactor == UINT32
    ensures (temp * 0x40 % UINT32 + d) % (0x40 * power) == 0x40 * (temp % power) + d
  {
    var k, v := temp / power, temp % power;
    var m := temp * 0x40 / UINT32;
    var t := temp * 0x40 % UINT32;
    assert temp == k * power + v;
    assert t == temp * 0x40 - m * (0x40 * power * cofactor);
    assert t + d == (k - m * cofactor) * (0x40 * power) + (0x40 * v + d);
    DivMod(t + d, 0x40 * power, k - m * cofactor, 0x40 * v + d);
  }

  lemma UnpackLow(temp: nat, v: nat)
    requires temp % 0x100_0000 == v
    ensures [temp / 0x1_0000 % 0x100, temp / 0x100 % 0x100, temp % 0x100] == Unpack(v)
  {
    var k := temp / 0x100_0000;
    DivMod(temp, 0x1_0000, 0x100 * k + v / 0x1_0000, v % 0x1_0000);
    DivMod(0x100 * k + v / 0x1_0000, 0x100, k, v / 0x1_0000);
    DivMod(temp, 0x100, 0x1_0000 * k + v / 0x100, v % 0x100);
    DivMod(0x1_0000 * k + v / 0x100, 0x100, 0x100 * k + v / 0x100 / 0x100, v / 0x100 % 0x100);
  }

  /** The byte before two pad characters. */
  lemma OneByteLeft(temp: nat, v: nat)
    requires temp % 0x1000 == v
    ensures temp * 0x40 % UINT32 / 0x400 % 0x100 == Unpack(0x1000 * v)[0]
  {
    var t := temp * 0x40 % UINT32;
    ShiftIn(temp, v, 0, 2);
    var k := t / 0x4_0000;
    DivMod(t, 0x400, 0x100 * k + v / 0x10, 0x40 * (v % 0x10));
    DivMod(0x100 * k + v / 0x10, 0x100, k, v / 0x10);
    DivMod(0x1000 * v, 0x1_0000, v / 0x10, 0x1000 * (v % 0x10));
    assert v / 0x10 < 0x100;
  }

  /** The two bytes before one pad character. */
  lemma TwoBytesLeft(temp: nat, v: nat)
    requires temp % 0x4_0000 == v
    ensures var t := temp * 0x40 % UINT32; [t / 0x1_0000 % 0x100, t / 0x100 % 0x100] == Unpack(0x40 * v)[..2]
  {
    ShiftIn(temp, v, 0, 3);
    UnpackLow(temp * 0x40 % UINT32, 0x40 * v);
    hide Unpack;
  }

  /** The letters read since the last complete group. */
  ghost predicate Accumulated(s: Text, i: nat, n: nat, quantum: nat, temp: nat) {
    && quantum < 4 && i == 4 * n + quantum <= |s| && AllLetters(s, i)
    && Digits(s[4 * n..i]) == Some(temp % Power(quantum))
  }

  lemma LetterAccumulated(s: Text, i: nat, n: nat, quantum: nat, temp: nat)
    requires Accumulated(s, i, n, quantum, temp) && i < |s| && Digit(s[i]).Some?
    ensures var t := temp * 0x40 % UINT32 + Digit(s[i]).value;
      && AllLetters(s, i + 1) && Digits(s[4 * n..i + 1]) == Some(t % Power(quantum + 1))
  {
    var d := Digit(s[i]).value;
    ShiftIn(temp, temp % Power(quantum), d, quantum);
    var g := s[4 * n..i + 1];
    assert g[..quantum] == s[4 * n..i] && g[quantum] == s[i];
    hide Digit, Digits, Power;
    assert g[..quantum + 1] == g;
    DigitsSnoc(g, quantum);
  }

  lemma WithinGroup(s: Text, i: nat, n: nat, quantum: nat, temp: nat)
    requires Accumulated(s, i, n, quantum, temp) && i < |s| && Digit(s[i]).Some? && quantum < 3
    ensures Accumulated(s, i + 1, n, quantum + 1, temp * 0x40 % UINT32 + Digit(s[i]).value)
  {
    LetterAccumulated(s, i, n, quantum, temp);
    hide Digits, Digit, Power;
  }

  lemma GroupComplete(s: Text, i: nat, n: nat, temp: nat)
    requires Accumulated(s, i, n, 3, temp) && i < |s| && Digit(s[i]).Some? && |s| % 4 == 0
    ensures var t := temp * 0x40 % UINT32 + Digit(s[i]).value;
      && Accumulated(s, i + 1, n + 1, 0, t)
      && 3 * n + 3 <= |s| / 4 * 3 - Padding(s)
      && DecodeGroups(s, n + 1) == DecodeGroups(s, n) + Unpack(t % 0x100_0000)
  {
    LetterAccumulated(s, i, n, 3, temp);
    GroupFits(s, i, n);
    GroupStarts(s, n + 1, temp * 0x40 % UINT32 + Digit(s[i]).value);
    hide Digits, Digit, Unpack;
    assert Power(4) == 0x100_0000;
  }

  lemma GroupStarts(s: Text, n: nat, temp: nat)
    requires 4 * n <= |s| && AllLetters(s, 4 * n)
    ensures Accumulated(s, 4 * n, n, 0, temp)
  {
    assert s[4 * n..4 * n] == [] && Power(0) == 1;
  }

  /** The three bytes of a complete group. */
  method PutGroup(result: array<Byte>, offset: nat, temp: nat) returns (offset': nat)
    requires offset + 3 <= result.Length
    modifies result
    ensures offset' == offset + 3 && result[..offset'] == old(result[..offset]) + Unpack(temp % 0x100_0000)
  {
    UnpackLow(temp, temp % 0x100_0000);
    hide Unpack;
    result[offset] := temp / 0x1_0000 % 0x100;
    result[offset + 1] := temp / 0x100 % 0x100;
    result[offset + 2] := temp % 0x100;
    offset' := offset + 3;
    assert result[..offset'] == result[..offset] + [result[offset], result[offset + 1], result[offset + 2]];
  }

  /** A complete group fits the result. */
  lemma GroupFits(s: Text, i: nat, n: nat)
    requires |s| % 4 == 0 && i + 1 == 4 * n + 4 <= |s| && Digit(s[i]).Some?
    ensures 3 * n + 3 <= |s| / 4 * 3 - Padding(s)
  {
    assert |s| == 4 * (|s| / 4);
    if Padding(s) > 0 {
      assert i + 1 != |s|;
    }
  }

  /** The letters before the pad characters at the end make up the last bytes. */
  lemma PadsReached(s: Text, i: nat, n: nat, quantum: nat, temp: nat)
    requires WellPadded(s) && Accumulated(s, i, n, quantum, temp) && Stop(s) == i < |s|
    ensures |s| == 4 * n + 4
    ensures var t := temp * 0x40 % UINT32;
            Decode(s) == DecodeGroups(s, n)
                         + if Padding(s) == 1 then [t / 0x1_0000 % 0x100, t / 0x100 % 0x100] else [t / 0x400 % 0x100]
  {
    var m, p := |s| / 4, Padding(s);
    assert n == m - 1 && quantum == 4 - p;
    hide Unpack, DecodeGroups, Digits;
    var v := Digits(s[4 * n..i]).value;
    if p == 1 {
      assert Power(3) == 0x4_0000;
      TwoBytesLeft(temp, v);
    } else {
      assert Power(2) == 0x1000;
      OneByteLeft(temp, v);
      assert Unpack(0x1000 * v)[..1] == [Unpack(0x1000 * v)[0]];
    }
  }

  lemma RoomForPads(s: Text, i: nat, n: nat, quantum: nat)
    requires |s| % 4 == 0 && i == 4 * n + quantum < |s| && quantum < 4
    ensures 3 * n + 3 <= |s| / 4 * 3
  {
  }

  /** The branch for a pad character, and the one for any other character. */
  method AtNonLetter(data: Text, ghost i: nat, ghost n: nat, ghost quantum: nat, ch: Byte, temp: nat, offset: nat,
                     padding: nat, result: array<Byte>)
    returns (r: Result<seq<Byte>>)
    requires |data| % 4 == 0 && padding == Padding(data) && result.Length == |data| / 4 * 3 - padding
    requires Accumulated(data, i, n, quantum, temp) && i == 4 * n + quantum < |data| && quantum < 4
    requires Stop(data) == i && ch == data[i]
    requires offset == 3 * n <= result.Length && result[..offset] == DecodeGroups(data, n)
    modifies result
    ensures r.Ok? <==> Accepted(data)
    ensures r.Ok? ==> |r.value| == result.Length
    ensures WellPadded(data) ==> r == Ok(Decode(data))
  {
    hide Accumulated, Decode, DecodeGroups;
    RoomForPads(data, i, n, quantum);
    if WellPadded(data) {
      PadsReached(data, i, n, quantum, temp);
    }
    ghost var done := result[..offset];
    var t := temp * 0x40 % UINT32;
    if ch == PAD {
      if padding == 1 {
        result[offset] := t / 0x1_0000 % 0x100;
        result[offset + 1] := t / 0x100 % 0x100;
        assert result[..offset + 2] == done + [t / 0x1_0000 % 0x100, t / 0x100 % 0x100];
        assert WellPadded(data) ==> result[..] == result[..offset + 2];
        r := Ok(result[..]);
      } else if padding == 2 {
        result[offset] := t / 0x400 % 0x100;
        assert result[..offset + 1] == done + [t / 0x400 % 0x100];
        assert WellPadded(data) ==> result[..] == result[..offset + 1];
        r := Ok(result[..]);
      } else {
        r := Err("Invalid Padding in Base 64!");
      }
    } else {
      r := Err("Non-Valid Character in Base 64!");
    }
  }

  /** to_bytes; where pad characters stand in the middle, the rest of the result is whatever the buffer held. */
  method ToBytes(data: Text) returns (r: Result<seq<Byte>>)
    ensures r.Ok? <==> Accepted(data)
    ensures r.Ok? ==> |r.value| == |data| / 4 * 3 - Padding(data)
    ensures WellPadded(data) ==> r == Ok(Decode(data))
  {
    hide Decode;
    if |data| % 4 != 0 {
      return Err("Non-Valid base64!");
    }
    var padding := 0;
    if 0 < |data| && data[|data| - 1] == PAD {
      padding := padding + 1;
      if 1 < |data| && data[|data| - 2] == PAD {
        padding := padding + 1;
      }
    }
    assert |data| > 0 ==> |data| / 4 > 0;
    var result := new Byte[|data| / 4 * 3 - padding];
    r := DecodeLoop(data, padding, result);
  }

  method DecodeLoop(data: Text, padding: nat, result: array<Byte>) returns (r: Result<seq<Byte>>)
    requires |data| % 4 == 0 && padding == Padding(data) && result.Length == |data| / 4 * 3 - padding
    modifies result
    ensures r.Ok? <==> Accepted(data)
    ensures r.Ok? ==> |r.value| == result.Length
    ensures WellPadded(data) ==> r == Ok(Decode(data))
  {
    hide Accepted, Accumulated, AllLetters, Decode, DecodeGroups, Digit, Padding, Stop, Unpack, WellPadded;
    var temp: nat, offset: nat, quantum: nat := 0, 0, 0;
    ghost var n := 0;
    NothingRead(data);
    for i := 0 to |data|
      invariant Accumulated(data, i, n, quantum, temp) && i == 4 * n + quantum && quantum < 4
      invariant AllLetters(data, 4 * n)
      invariant offset == 3 * n <= result.Length
      invariant result[..offset] == DecodeGroups(data, n)
    {
      var ch := data[i];
      var d := Digit(ch);
      if d.None? {
        StopIs(data, i, n, quantum, temp);
        r := AtNonLetter(data, i, n, quantum, ch, temp, offset, padding, result);
        return;
      }
      LetterRead(data, i, n, quantum, temp);
      temp := temp * 0x40 % UINT32 + d.value;
      quantum := quantum + 1;
      if 4 == quantum {
        offset := PutGroup(result, offset, temp);
        quantum := 0;
        n := n + 1;
      }
    }
    AllRead(data, n, quantum, temp);
    assert result[..] == result[..offset];
    r := Ok(result[..]);
  }

  lemma NothingRead(s: Text)
    ensures AllLetters(s, 0) && Accumulated(s, 0, 0, 0, 0) && DecodeGroups(s, 0) == []
  {
    GroupStarts(s, 0, 0);
  }

  /** One letter more, within a group or at its end. */
  lemma LetterRead(s: Text, i: nat, n: nat, quantum: nat, temp: nat)
    requires |s| % 4 == 0 && quantum < 4 && i == 4 * n + quantum < |s|
    requires AllLetters(s, 4 * n) && Accumulated(s, i, n, quantum, temp) && Digit(s[i]).Some?
    ensures var t := temp * 0x40 % UINT32 + Digit(s[i]).value;
      if quantum < 3 then Accumulated(s, i + 1, n, quantum + 1, t) else
      && 4 * n + 4 <= |s| && Accumulated(s, i + 1, n + 1, 0, t) && AllLetters(s, 4 * (n + 1))
      && 3 * n + 3 <= |s| / 4 * 3 - Padding(s)
      && DecodeGroups(s, n + 1) == DecodeGroups(s, n) + Unpack(t % 0x100_0000)
  {
    assert UINT32 > 0;
    hide *;
    if quantum < 3 {
      WithinGroup(s, i, n, quantum, temp);
    } else {
      GroupComplete(s, i, n, temp);
      LettersSoFar(s, i + 1, n + 1, 0, temp * 0x40 % UINT32 + Digit(s[i]).value);
    }
  }

  lemma LettersSoFar(s: Text, i: nat, n: nat, quantum: nat, temp: nat)
    requires Accumulated(s, i, n, quantum, temp)
    ensures AllLetters(s, 4 * n)
  {
  }

  lemma StopIs(s: Text, i: nat, n: nat, quantum: nat, temp: nat)
    requires Accumulated(s, i, n, quantum, temp) && i < |s| && Digit(s[i]).None?
    ensures Stop(s) == i
  {
    StopAt(s, i);
  }

  lemma AllRead(s: Text, n: nat, quantum: nat, temp: nat)
    requires |s| % 4 == 0 && Accumulated(s, |s|, n, quantum, temp)
    ensures 4 * n == |s| && Padding(s) == 0 && WellPadded(s) && Accepted(s) && Decode(s) == DecodeGroups(s, n)
  {
    hide Digits, Power, DecodeGroups;
    StopAt(s, |s|);
    assert |s| > 0 ==> Digit(s[|s| - 1]).Some?;
  }

  // ----- Against section 4 of RFC 4648 -----

  function ByteOrZero(data: seq<Byte>, i: nat): Byte {
    if i < |data| then data[i] else 0
  }

  /** Six bits of the data, the first bit first. */
  function SextetAt(data: seq<Byte>, j: nat): Sextet {
    var a, b, c := ByteOrZero(data, 3 * (j / 4)), ByteOrZero(data, 3 * (j / 4) + 1), ByteOrZero(data, 3 * (j / 4) + 2);
    match j % 4
    case 0 => a / 4
    case 1 => a % 4 * 16 + b / 16
    case 2 => b % 16 * 4 + c / 64
    case _ => c % 64
  }

  lemma LettersAt(a: Byte, b: Byte, c: Byte)
    ensures Letters(Pack(a, b, c))
         == [Letter(a / 4), Letter(a % 4 * 16 + b / 16), Letter(b % 16 * 4 + c / 64), Letter(c % 64)]
  {
    FirstSextet(a, b, c);
    SecondSextet(a, b, c);
    ThirdSextet(a, b, c);
    FourthSextet(a, b, c);
    hide Letter, Pack;
  }

  lemma FirstSextet(a: Byte, b: Byte, c: Byte)
    ensures Pack(a, b, c) / 0x4_0000 % 0x40 == a / 4
  {
    DivMod(Pack(a, b, c), 0x4_0000, a / 4, a % 4 * 0x1_0000 + b * 0x100 + c);
  }

  lemma SecondSextet(a: Byte, b: Byte, c: Byte)
    ensures Pack(a, b, c) / 0x1000 % 0x40 == a % 4 * 16 + b / 16
  {
    DivMod(Pack(a, b, c), 0x1000, 16 * a + b / 16, b % 16 * 0x100 + c);
    DivMod(16 * a + b / 16, 0x40, a / 4, a % 4 * 16 + b / 16);
  }

  lemma ThirdSextet(a: Byte, b: Byte, c: Byte)
    ensures Pack(a, b, c) / 0x40 % 0x40 == b % 16 * 4 + c / 64
  {
    DivMod(Pack(a, b, c), 0x40, 1024 * a + 4 * b + c / 64, c % 64);
    DivMod(1024 * a + 4 * b + c / 64, 0x40, 16 * a + b / 16, b % 16 * 4 + c / 64);
  }

  lemma FourthSextet(a: Byte, b: Byte, c: Byte)
    ensures Pack(a, b, c) % 0x40 == c % 64
  {
    DivMod(Pack(a, b, c), 0x40, 1024 * a + 4 * b + c / 64, c % 64);
  }

  lemma {:induction false} GroupsAt(data: seq<Byte>, n: nat, j: nat)
    requires 3 * n <= |data| && j < 4 * n
    ensures EncodeGroups(data, n)[j] == Letter(SextetAt(data, j))
  {
    if j < 4 * n - 4 {
      GroupsAt(data, n - 1, j);
    } else {
      LettersAt(data[3 * n - 3], data[3 * n - 2], data[3 * n - 1]);
      assert j / 4 == n - 1;
    }
  }

  /** Every letter stands for its six bits of the data; what is left of the last four is filled with the byte 3D. */
  lemma EncodeAt(data: seq<Byte>, j: nat)
    ensures |Encode(data)| == (|data| + 2) / 3 * 4
    ensures j < |Encode(data)| ==> Encode(data)[j] == if 6 * j < 8 * |data| then Letter(SextetAt(data, j)) else 0x3D
  {
    hide *;
    var n := |data| / 3;
    var rest := data[3 * n..];
    EncodeParts(data);
    LetterCount(|data|, j);
    if j < 4 * n {
      GroupsAt(data, n, j);
    } else if |rest| > 0 && j < 4 * n + 4 {
      RestAt(data, j);
    }
  }

  lemma EncodeParts(data: seq<Byte>)
    ensures var n := |data| / 3;
      && Encode(data) == EncodeGroups(data, n) + Rest(data[3 * n..])
      && |EncodeGroups(data, n)| == 4 * n && |Rest(data[3 * n..])| == if |data| % 3 == 0 then 0 else 4
  {
  }

  lemma LetterCount(size: nat, j: nat)
    ensures (size + 2) / 3 * 4 == 4 * (size / 3) + if size % 3 == 0 then 0 else 4
    ensures j < 4 * (size / 3) ==> 6 * j < 8 * size
  {
  }

  lemma RestAt(data: seq<Byte>, j: nat)
    requires var n := |data| / 3; |data| % 3 > 0 && 4 * n <= j < 4 * n + 4
    ensures var n := |data| / 3;
      |Rest(data[3 * n..])| == 4 &&
      Rest(data[3 * n..])[j - 4 * n] == if 6 * j < 8 * |data| then Letter(SextetAt(data, j)) else 0x3D
  {
    var n := |data| / 3;
    var rest := data[3 * n..];
    LettersAt(rest[0], if |rest| == 2 then rest[1] else 0, 0);
    assert j / 4 == n && j % 4 == j - 4 * n;
  }

  lemma {:induction false} StopFirst(s: Text, p: nat)
    requires p < |s| && AllLetters(s, p) && Digit(s[p]).None?
    ensures Stop(s) == p
  {
    if p > 0 {
      assert forall i :: 0 <= i < p - 1 ==> s[1..][i] == s[i + 1];
      StopFirst(s[1..], p - 1);
    }
  }

  /** A text is accepted if it is made of letters, or if its first other character and its last are the byte 3D. */
  lemma AcceptedIff(s: Text)
    ensures Accepted(s) <==>
      && |s| % 4 == 0
      && (AllLetters(s, |s|)
          || exists p :: 0 <= p < |s| && AllLetters(s, p) && s[p] == 0x3D && s[|s| - 1] == 0x3D)
  {
    var q := Stop(s);
    if exists p :: 0 <= p < |s| && AllLetters(s, p) && s[p] == 0x3D && s[|s| - 1] == 0x3D {
      var p :| 0 <= p < |s| && AllLetters(s, p) && s[p] == 0x3D && s[|s| - 1] == 0x3D;
      StopFirst(s, p);
    }
  }

  /** Three bytes from four sextets. */
  lemma UnpackAt(a: Sextet, b: Sextet, c: Sextet, d: Sextet)
    ensures Unpack(0x40 * (0x40 * (0x40 * a + b) + c) + d) == [a * 4 + b / 16, b % 16 * 16 + c / 4, c % 4 * 64 + d]
  {
    var v := 0x40 * (0x40 * (0x40 * a + b) + c) + d;
    DivMod(v, 0x1_0000, a * 4 + b / 16, b % 16 * 0x1000 + c * 64 + d);
    DivMod(v, 0x100, 0x100 * (a * 4 + b / 16) + (b % 16 * 16 + c / 4), c % 4 * 64 + d);
    DivMod(0x100 * (a * 4 + b / 16) + (b % 16 * 16 + c / 4), 0x100, a * 4 + b / 16, b % 16 * 16 + c / 4);
  }

  /** The six bits of a letter; none for what is no letter. */
  function SextetOf(s: Text, k: nat): Sextet {
    if k < |s| && Digit(s[k]).Some? then Digit(s[k]).value else 0
  }

  function ByteAt(s: Text, i: nat): Byte {
    var k := 4 * (i / 3);
    match i % 3
    case 0 => SextetOf(s, k) * 4 + SextetOf(s, k + 1) / 16
    case 1 => SextetOf(s, k + 1) % 16 * 16 + SextetOf(s, k + 2) / 4
    case _ => SextetOf(s, k + 2) % 4 * 64 + SextetOf(s, k + 3)
  }

  /** The number made of the letters of group m, of which count are there. */
  function GroupNumber(s: Text, m: nat, count: nat): (v: nat)
    requires 2 <= count <= 4 && 4 * m + count <= |s| && AllLetters(s, 4 * m + count)
  {
    var t := s[4 * m..4 * m + count];
    assert AllLetters(t, count) by {
      assert forall i :: 0 <= i < count ==> t[i] == s[4 * m + i];
    }
    var v := Digits(t).value;
    if count == 4 then v else if count == 3 then 0x40 * v else 0x1000 * v
  }

  /** Letters that are missing count as zero. */
  lemma GroupDigits(s: Text, m: nat, count: nat)
    requires 2 <= count <= 4 && 4 * m + 4 <= |s| && AllLetters(s, 4 * m + count)
    requires forall k :: 4 * m + count <= k < 4 * m + 4 ==> Digit(s[k]).None?
    ensures var a, b, c, d := SextetOf(s, 4 * m), SextetOf(s, 4 * m + 1), SextetOf(s, 4 * m + 2), SextetOf(s, 4 * m + 3);
            GroupNumber(s, m, count) == 0x40 * (0x40 * (0x40 * a + b) + c) + d
  {
    var t := s[4 * m..4 * m + count];
    assert t[0] == s[4 * m] && t[1] == s[4 * m + 1];
    assert count > 2 ==> t[2] == s[4 * m + 2];
    assert count > 3 ==> t[3] == s[4 * m + 3];
    assert AllLetters(t, count);
    assert SextetOf(s, 4 * m) == SextetOf(t, 0) && SextetOf(s, 4 * m + 1) == SextetOf(t, 1);
    assert SextetOf(s, 4 * m + 2) == SextetOf(t, 2) && SextetOf(s, 4 * m + 3) == SextetOf(t, 3);
    hide Digit, Digits, SextetOf, AllLetters;
    ShortDigits(t);
  }

  lemma ShortDigits(t: Text)
    requires 2 <= |t| <= 4 && AllLetters(t, |t|)
    ensures Digits(t).Some?
    ensures Digits(t).value ==
      var ab := 0x40 * SextetOf(t, 0) + SextetOf(t, 1);
      if |t| == 2 then ab
      else if |t| == 3 then 0x40 * ab + SextetOf(t, 2)
      else 0x40 * (0x40 * ab + SextetOf(t, 2)) + SextetOf(t, 3)
    ensures |t| <= 3 ==> SextetOf(t, 3) == 0
    ensures |t| == 2 ==> SextetOf(t, 2) == 0
  {
    assert t[..0] == [] && t[..|t|] == t && Digits([]) == Some(0);
    DigitsSnoc(t, 0);
    DigitsSnoc(t, 1);
    if |t| > 2 {
      DigitsSnoc(t, 2);
    }
    if |t| > 3 {
      DigitsSnoc(t, 3);
    }
    hide Digit, Digits;
  }

  lemma ByteInGroup(s: Text, m: nat, j: nat)
    requires j < 3
    ensures var a, b, c, d := SextetOf(s, 4 * m), SextetOf(s, 4 * m + 1), SextetOf(s, 4 * m + 2), SextetOf(s, 4 * m + 3);
            ByteAt(s, 3 * m + j) == [a * 4 + b / 16, b % 16 * 16 + c / 4, c % 4 * 64 + d][j]
  {
    assert (3 * m + j) / 3 == m && (3 * m + j) % 3 == j;
    hide SextetOf;
  }

  lemma GroupByte(s: Text, m: nat, count: nat, j: nat)
    requires 2 <= count <= 4 && 4 * m + 4 <= |s| && AllLetters(s, 4 * m + count) && j < 3
    requires forall k :: 4 * m + count <= k < 4 * m + 4 ==> Digit(s[k]).None?
    ensures Unpack(GroupNumber(s, m, count))[j] == ByteAt(s, 3 * m + j)
  {
    hide *;
    GroupDigits(s, m, count);
    UnpackAt(SextetOf(s, 4 * m), SextetOf(s, 4 * m + 1), SextetOf(s, 4 * m + 2), SextetOf(s, 4 * m + 3));
    ByteInGroup(s, m, j);
  }

  lemma {:induction false} DecodeGroupsAt(s: Text, n: nat, i: nat)
    requires 4 * n <= |s| && AllLetters(s, 4 * n) && i < 3 * n
    ensures DecodeGroups(s, n)[i] == ByteAt(s, i)
  {
    hide *;
    DecodeGroupsStep(s, n - 1);
    if i < 3 * (n - 1) {
      DecodeGroupsAt(s, n - 1, i);
    } else {
      GroupByte(s, n - 1, 4, i - 3 * (n - 1));
    }
  }

  lemma DecodeGroupsStep(s: Text, m: nat)
    requires 4 * m + 4 <= |s| && AllLetters(s, 4 * m + 4)
    ensures AllLetters(s, 4 * m) && DecodeGroups(s, m + 1) == DecodeGroups(s, m) + Unpack(GroupNumber(s, m, 4))
  {
    assert 4 * (m + 1) - 4 == 4 * m && 4 * (m + 1) == 4 * m + 4;
    hide Digits, Digit, Unpack;
  }

  /** Every byte of the result is put together from the six bits of its letters. */
  lemma DecodeAt(s: Text, i: nat)
    requires WellPadded(s) && i < |Decode(s)|
    ensures |Decode(s)| == |s| / 4 * 3 - Padding(s) && Decode(s)[i] == ByteAt(s, i)
  {
    hide *;
    PaddedText(s);
    var p, m := Padding(s), |s| / 4 - 1;
    if p == 0 {
      DecodeWhole(s);
      DecodeGroupsAt(s, |s| / 4, i);
    } else {
      DecodeParts(s, m);
      if i < 3 * m {
        DecodeGroupsAt(s, m, i);
      } else {
        GroupByte(s, m, 4 - p, i - 3 * m);
      }
    }
  }

  lemma PaddedText(s: Text)
    requires WellPadded(s)
    ensures Padding(s) > 0 ==> |s| / 4 >= 1
  {
  }

  lemma DecodeWhole(s: Text)
    requires WellPadded(s) && Padding(s) == 0
    ensures var n := |s| / 4; |s| == 4 * n && AllLetters(s, 4 * n) && Decode(s) == DecodeGroups(s, n)
  {
  }

  lemma DecodeParts(s: Text, m: nat)
    requires WellPadded(s) && Padding(s) > 0 && m + 1 == |s| / 4
    ensures var p := Padding(s);
      && |s| == 4 * m + 4 && AllLetters(s, 4 * m) && AllLetters(s, 4 * m + (4 - p))
      && (forall k :: 4 * m + (4 - p) <= k < 4 * m + 4 ==> Digit(s[k]).None?)
      && Decode(s) == DecodeGroups(s, m) + Unpack(GroupNumber(s, m, 4 - p))[..3 - p]
  {
    var n, p := |s| / 4, Padding(s);
    LastGroup(s, m);
    assert 4 * n - 4 == 4 * m && 4 * n - p == 4 * m + (4 - p);
    hide DecodeGroups, Unpack, Digits, Digit, Stop, Padding, WellPadded, AllLetters;
  }

  lemma LastGroup(s: Text, m: nat)
    requires WellPadded(s) && Padding(s) > 0 && m + 1 == |s| / 4
    ensures var p := Padding(s);
      && |s| == 4 * m + 4 && AllLetters(s, 4 * m) && AllLetters(s, 4 * m + (4 - p))
      && forall k :: 4 * m + (4 - p) <= k < 4 * m + 4 ==> Digit(s[k]).None?
  {
    hide Stop;
    assert Digit(PAD).None?;
  }
}
