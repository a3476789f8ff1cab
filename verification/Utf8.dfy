/**
  utf8::next_char and utf8::add of kernel/vds_core/encoding.cpp, as the JSON writer and parser
  use them, with a 32-bit wchar_t.
 */
module Utf8 {
  import opened Bytes

  predicate Continues(s: seq<Byte>, count: nat) {
    |s| >= count && forall i :: 1 <= i < count ==> 0x80 <= s[i] < 0xC0
  }

  /** The number of bytes of the first character, or 0 if they are not well formed. */
  function CharSize(s: seq<Byte>): (n: nat)
    requires |s| > 0
    ensures n <= |s|
  {
    var size :=
      if s[0] < 0x80 then 1
      else if 0xC0 <= s[0] < 0xE0 then 2
      else if 0xE0 <= s[0] < 0xF0 then 3
      else if 0xF0 <= s[0] < 0xF8 then 4
      else 0;
    if Continues(s, size) then size else 0
  }

  /** The six low bits of a continuation byte. */
  function Low(b: Byte): int {
    b % 0x40
  }

  /** next_char: the lead byte is always masked to five bits, also in the long forms. */
  function NextChar(s: seq<Byte>): nat
    requires |s| > 0 && CharSize(s) > 0
  {
    var lead: int := s[0] % 0x20;
    match CharSize(s)
    case 1 => s[0]
    case 2 => lead * 0x40 + Low(s[1])
    case 3 => lead * 0x1000 + Low(s[1]) * 0x40 + Low(s[2])
    case _ => lead * 0x4_0000 + Low(s[1]) * 0x1000 + Low(s[2]) * 0x40 + Low(s[3])
  }

  /** add; every form of more than one byte begins with the two-byte lead 0xC0. */
  function Add(ch: nat): (s: seq<Byte>)
    requires ch < 0x1_0000
    ensures |s| > 0
  {
    if ch < 0x80 then [ch]
    else if ch < 0x800 then [0xC0 + ch / 0x40, 0x80 + ch % 0x40]
    else [LeadOfThree(ch), 0x80 + ch / 0x40 % 0x40, 0x80 + ch % 0x40]
  }

  /** 0b11000000 | (ch >> 12) */
  function LeadOfThree(ch: nat): Byte
    requires ch < 0x1_0000
  {
    0xC0 + ch / 0x1000
  }

  // ----- Whole strings -----

  predicate WellFormed(s: seq<Byte>) {
    |s| == 0 || (CharSize(s) > 0 && WellFormed(s[CharSize(s)..]))
  }

  /** The characters of a string. */
  function Points(s: seq<Byte>): seq<nat>
    requires WellFormed(s)
  {
    if |s| == 0 then [] else [NextChar(s)] + Points(s[CharSize(s)..])
  }

  /** Characters cut to 16 bits and added again. */
  function Images(points: seq<nat>): seq<Byte> {
    if |points| == 0 then [] else Add(points[0] % 0x1_0000) + Images(points[1..])
  }

  /** What becomes of a string that is read with next_char, cut to 16 bits and written with add. */
  function Mangled(s: seq<Byte>): seq<Byte>
    requires WellFormed(s)
  {
    Images(Points(s))
  }

  /** Characters below 0x800, in their shortest form. */
  predicate Canonical(s: seq<Byte>) {
    |s| == 0
    || (s[0] < 0x80 && Canonical(s[1..]))
    || (0xC2 <= s[0] < 0xE0 && |s| >= 2 && 0x80 <= s[1] < 0xC0 && Canonical(s[2..]))
  }

  lemma {:induction false} CanonicalWellFormed(s: seq<Byte>)
    requires Canonical(s)
    ensures WellFormed(s)
  {
    if |s| > 0 {
      CanonicalWellFormed(if s[0] < 0x80 then s[1..] else s[2..]);
    }
  }

  /** Any other character comes back with another lead byte. */
  lemma ImageOfFirst(s: seq<Byte>)
    requires |s| > 0 && CharSize(s) > 0
    ensures var image := Add(NextChar(s) % 0x1_0000);
            if s[0] < 0x80 || 0xC2 <= s[0] < 0xE0 then image == s[..CharSize(s)] else image[0] != s[0]
  {
    var size := CharSize(s);
    if size == 1 {
      assert s[..1] == [s[0]];
    } else if size == 2 {
      var ch := NextChar(s);
      assert s[..2] == [s[0], s[1]];
      assert ch < 0x800 && ch / 0x40 == s[0] % 0x20 && ch % 0x40 == s[1] % 0x40;
    }
  }

  lemma {:induction false} MangledSame(s: seq<Byte>)
    requires WellFormed(s)
    ensures Mangled(s) == s <==> Canonical(s)
  {
    if |s| > 0 {
      var size := CharSize(s);
      var rest, image := s[size..], Add(NextChar(s) % 0x1_0000);
      MangledSame(rest);
      ImageOfFirst(s);
      assert Points(s) == [NextChar(s)] + Points(rest);
      assert Points(s)[1..] == Points(rest);
      hide NextChar, Add, Points, Images;
      assert Mangled(s) == image + Mangled(rest);
      assert s == s[..size] + rest;
      if s[0] < 0x80 || 0xC2 <= s[0] < 0xE0 {
        assert Mangled(s)[size..] == Mangled(rest);
      } else {
        assert Mangled(s)[0] == image[0];
      }
    }
  }

  // ----- Strings of characters below 0x800 -----

  ghost predicate Below800(points: seq<nat>) {
    forall i :: 0 <= i < |points| ==> points[i] < 0x800
  }

  lemma {:induction false} Below800Canonical(points: seq<nat>)
    requires Below800(points)
    ensures Canonical(Images(points))
  {
    if |points| > 0 {
      Below800Canonical(points[1..]);
      var s, rest := Images(points), Images(points[1..]);
      var ch := points[0];
      assert s == Add(ch) + rest;
      if ch < 0x80 {
        assert s[0] == ch && s[1..] == rest;
      } else {
        assert s[0] == 0xC0 + ch / 0x40 && s[1] == 0x80 + ch % 0x40 && s[2..] == rest;
      }
    }
  }

  // ----- Against section 3 of RFC 3629 -----

  /** The encoding of a code point. */
  function Encoding(cp: nat): (s: seq<Byte>)
    requires cp < 0x11_0000
    ensures |s| > 0
  {
    if cp < 0x80 then [cp]
    else if cp < 0x800 then [0xC0 + cp / 0x40, 0x80 + cp % 0x40]
    else if cp < 0x1_0000 then [0xE0 + cp / 0x1000, 0x80 + cp / 0x40 % 0x40, 0x80 + cp % 0x40]
    else [0xF0 + cp / 0x4_0000, 0x80 + cp / 0x1000 % 0x40, 0x80 + cp / 0x40 % 0x40, 0x80 + cp % 0x40]
  }

  /** next_char decodes every code point below 0x10000; above, one bit of the lead byte stays in. */
  lemma NextCharReads(cp: nat, rest: seq<Byte>)
    requires cp < 0x11_0000
    ensures CharSize(Encoding(cp) + rest) == |Encoding(cp)|
    ensures NextChar(Encoding(cp) + rest) == cp + if cp < 0x1_0000 then 0 else 0x40_0000
  {
    if cp < 0x800 {
    } else if cp < 0x1_0000 {
      ThreeRead(cp, rest);
    } else {
      FourRead(cp, rest);
    }
  }

  lemma ThreeRead(cp: nat, rest: seq<Byte>)
    requires 0x800 <= cp < 0x1_0000
    ensures CharSize(Encoding(cp) + rest) == 3 && NextChar(Encoding(cp) + rest) == cp
  {
    var s := Encoding(cp) + rest;
    SplitThree(cp);
    assert s[0] == 0xE0 + cp / 0x1000 && s[1] == 0x80 + cp / 0x40 % 0x40 && s[2] == 0x80 + cp % 0x40;
    hide Encoding;
    assert CharSize(s) == 3;
    hide CharSize, Continues;
    assert s[0] % 0x20 == cp / 0x1000 && Low(s[1]) == cp / 0x40 % 0x40 && Low(s[2]) == cp % 0x40;
  }

  lemma FourRead(cp: nat, rest: seq<Byte>)
    requires 0x1_0000 <= cp < 0x11_0000
    ensures CharSize(Encoding(cp) + rest) == 4 && NextChar(Encoding(cp) + rest) == cp + 0x40_0000
  {
    var s := Encoding(cp) + rest;
    SplitFour(cp);
    assert s[0] == 0xF0 + cp / 0x4_0000 && s[1] == 0x80 + cp / 0x1000 % 0x40;
    assert s[2] == 0x80 + cp / 0x40 % 0x40 && s[3] == 0x80 + cp % 0x40;
    hide Encoding;
    assert CharSize(s) == 4;
    hide CharSize, Continues;
    assert s[0] % 0x20 == 0x10 + cp / 0x4_0000 && Low(s[1]) == cp / 0x1000 % 0x40;
    assert Low(s[2]) == cp / 0x40 % 0x40 && Low(s[3]) == cp % 0x40;
  }

  lemma SplitThree(cp: nat)
    requires cp < 0x1_0000
    ensures cp / 0x1000 < 0x10 && cp == cp / 0x1000 * 0x1000 + cp / 0x40 % 0x40 * 0x40 + cp % 0x40
  {
  }

  lemma SplitFour(cp: nat)
    requires cp < 0x11_0000
    ensures cp / 0x4_0000 < 5
    ensures cp == cp / 0x4_0000 * 0x4_0000 + cp / 0x1000 % 0x40 * 0x1000 + cp / 0x40 % 0x40 * 0x40 + cp % 0x40
  {
  }

  /** add writes the encoding of a code point if and only if it is below 0x800; the lead byte of a longer one is wrong. */
  lemma AddIff(cp: nat)
    requires cp < 0x1_0000
    ensures Add(cp) == Encoding(cp) <==> cp < 0x800
    ensures cp >= 0x800 ==> Add(cp)[0] == Encoding(cp)[0] - 0x20 && Add(cp)[1..] == Encoding(cp)[1..]
  {
    if cp >= 0x800 {
      assert Add(cp)[0] != Encoding(cp)[0];
    }
  }
}
