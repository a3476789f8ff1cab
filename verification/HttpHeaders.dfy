/**
  Header lines as kernel/vds_http/http_message.cpp looks them up, and the number that
  std::stoul makes of a Content-Length value.
 */
module HttpHeaders {
  import opened Arithmetic
  import opened Bytes
  import opened Wrappers

  type Line = seq<Byte>

  const CR: Byte := 13
  const LF: Byte := 10
  const COLON: Byte := 58
  const MINUS: Byte := 45
  const PLUS: Byte := 43

  /** (size_t)-1 */
  const UNLIMITED: nat := 0xFFFF_FFFF_FFFF_FFFF

  function Ascii(s: string): (r: Line)
    ensures |r| == |s|
  {
    seq(|s|, i requires 0 <= i < |s| => s[i] as int % 0x100)
  }

  // ----- Trimming -----

  function TrimLeft(s: Line): Line {
    if |s| > 0 && IsSpace(s[0]) then TrimLeft(s[1..]) else s
  }

  function TrimRight(s: Line): Line {
    if |s| > 0 && IsSpace(s[|s| - 1]) then TrimRight(s[..|s| - 1]) else s
  }

  function Trim(s: Line): Line {
    TrimRight(TrimLeft(s))
  }

  // ----- Lookup -----

  predicate Named(h: Line, name: Line) {
    |h| > |name| && h[|name|] == COLON && h[..|name|] == name
  }

  /** http_message::get_header: the first header with the name, trimmed. */
  function GetHeader(headers: seq<Line>, name: Line): Option<Line> {
    if |headers| == 0 then None
    else if Named(headers[0], name) then Some(Trim(headers[0][|name| + 1..]))
    else GetHeader(headers[1..], name)
  }

  // ----- Numbers -----

  /** The longest prefix of digits. */
  function Digits(s: Line): Line {
    if |s| > 0 && IsDigit(s[0]) then [s[0]] + Digits(s[1..]) else []
  }

  function DecimalValue(s: Line): nat {
    if |s| == 0 then 0
    else 10 * DecimalValue(s[..|s| - 1]) + (if IsDigit(s[|s| - 1]) then s[|s| - 1] as int - DIGIT_0 as int else 0)
  }

  /** std::stoul: white space, a sign, digits; a negative number wraps around. */
  function Stoul(s: Line): Result<nat> {
    var t := TrimLeft(s);
    var negative := |t| > 0 && t[0] == MINUS;
    var digits := Digits(if |t| > 0 && (t[0] == MINUS || t[0] == PLUS) then t[1..] else t);
    if |digits| == 0 then Err("stoul: no conversion")
    else if DecimalValue(digits) > UNLIMITED then Err("stoul: out of range")
    else Ok(if negative then (UNLIMITED + 1 - DecimalValue(digits)) % (UNLIMITED + 1) else DecimalValue(digits))
  }

  /** A number as std::to_string writes it. */
  function Decimal(n: nat): (r: Line)
    ensures |r| >= 1
  {
    (if n < 10 then [] else Decimal(n / 10)) + [DIGIT_0 as int + n % 10]
  }

  lemma {:induction false} DecimalRoundTrip(n: nat)
    ensures DecimalValue(Decimal(n)) == n && forall i :: 0 <= i < |Decimal(n)| ==> IsDigit(Decimal(n)[i])
  {
    var s := Decimal(n);
    if n < 10 {
      assert s[..|s| - 1] == [];
    } else {
      DecimalRoundTrip(n / 10);
      assert s[..|s| - 1] == Decimal(n / 10);
    }
  }

  lemma {:induction false} AllDigits(s: Line)
    requires forall i :: 0 <= i < |s| ==> IsDigit(s[i])
    ensures Digits(s) == s
  {
    if |s| > 0 {
      AllDigits(s[1..]);
    }
  }

  lemma {:induction false} LeftTrimmed(a: Line, s: Line)
    requires AllBlank(a) && (|s| > 0 ==> s[0] !in BLANKS)
    ensures TrimLeft(a + s) == s
    decreases |a|
  {
    if |a| == 0 {
      assert a + s == s;
    } else {
      assert a[0] in BLANKS && (a + s)[1..] == a[1..] + s;
      LeftTrimmed(a[1..], s);
    }
  }

  lemma {:induction false} RightTrimmed(s: Line, b: Line)
    requires AllBlank(b) && (|s| > 0 ==> s[|s| - 1] !in BLANKS)
    ensures TrimRight(s + b) == s
    decreases |b|
  {
    var n := |b| - 1;
    if n < 0 {
      assert s + b == s;
    } else {
      assert b[n] in BLANKS && (s + b)[..|s| + n] == s + b[..n] && (s + b)[|s| + n] == b[n];
      RightTrimmed(s, b[..n]);
    }
  }

  /** White space on both sides is taken off, and nothing else. */
  lemma Trimmed(a: Line, s: Line, b: Line)
    requires AllBlank(a) && AllBlank(b) && |s| > 0 && s[0] !in BLANKS && s[|s| - 1] !in BLANKS
    ensures Trim(a + s + b) == s
  {
    assert a + s + b == a + (s + b) && (s + b)[0] == s[0];
    LeftTrimmed(a, s + b);
    RightTrimmed(s, b);
  }

  function Pow10(k: nat): (p: nat)
    ensures p >= 1
  {
    if k == 0 then 1 else 10 * Pow10(k - 1)
  }

  /** The digits of a decimal number, the last one for the ones, without a leading zero. */
  lemma {:induction false} DecimalDigits(n: nat, k: nat)
    requires k < |Decimal(n)|
    ensures Decimal(n)[|Decimal(n)| - 1 - k] == 0x30 + n / Pow10(k) % 10
    ensures n > 0 ==> Decimal(n)[0] != 0x30
    decreases n
  {
    var s := Decimal(n);
    if n >= 10 {
      assert s[..|s| - 1] == Decimal(n / 10);
      DecimalDigits(n / 10, if k == 0 then 0 else k - 1);
      if k > 0 {
        DivideTwice(n, Pow10(k - 1));
      }
    }
  }

  lemma DivideTwice(n: nat, p: nat)
    requires p >= 1
    ensures n / (10 * p) == n / 10 / p
  {
    var q, r := n / 10 / p, n / 10 % p;
    assert n == (10 * p) * q + (10 * r + n % 10);
    DivMod(n, 10 * p, q, 10 * r + n % 10);
  }

  lemma DigitsAreNoSpaces(s: Line)
    requires forall i :: 0 <= i < |s| ==> IsDigit(s[i])
    ensures forall i :: 0 <= i < |s| ==> s[i] !in BLANKS
  {
  }

  /** A decimal number with any white space around it is read back. */
  lemma NumberRead(a: Line, n: nat, b: Line)
    requires AllBlank(a) && AllBlank(b) && n <= UNLIMITED
    ensures Stoul(Trim(a + Decimal(n) + b)) == Ok(n)
  {
    hide Decimal, Digits, DecimalValue;
    var s := Decimal(n);
    DecimalRoundTrip(n);
    DigitsAreNoSpaces(s);
    Trimmed(a, s, b);
    LeftTrimmed([], s);
    assert [] + s == s;
    AllDigits(s);
    hide Trim, TrimLeft;
  }

  lemma {:induction false} DigitsThen(s: Line, tail: Line)
    requires (forall i :: 0 <= i < |s| ==> IsDigit(s[i])) && (|tail| > 0 ==> !IsDigit(tail[0]))
    ensures Digits(s + tail) == s
    decreases |s|
  {
    if |s| == 0 {
      assert s + tail == tail;
    } else {
      assert (s + tail)[1..] == s[1..] + tail;
      DigitsThen(s[1..], tail);
    }
  }

  /** stoul takes a sign, ignores what follows the digits, and wraps a negative number around. */
  lemma SignedRead(a: Line, sign: Byte, n: nat, tail: Line)
    requires AllBlank(a) && sign in {0x2B, 0x2D} && n <= UNLIMITED && (|tail| > 0 ==> !(0x30 <= tail[0] <= 0x39))
    ensures Stoul(a + [sign] + Decimal(n) + tail)
         == Ok(if sign == 0x2D && n > 0 then 0x1_0000_0000_0000_0000 - n else n)
  {
    hide Decimal, Digits, DecimalValue;
    var s := Decimal(n);
    var t := [sign] + (s + tail);
    DecimalRoundTrip(n);
    assert a + [sign] + s + tail == a + t && t[1..] == s + tail;
    LeftTrimmed(a, t);
    DigitsThen(s, tail);
    hide TrimLeft;
  }

  /** A header has the name when it begins with it and a colon; names are compared byte by byte. */
  lemma NamedIffPrefix(h: Line, name: Line)
    ensures Named(h, name) <==> name + [0x3A] <= h
  {
    if Named(h, name) {
      assert h[..|name|] == name;
      assert h == name + [0x3A] + h[|name| + 1..];
    }
    if name + [0x3A] <= h {
      assert h[..|name|] == (name + [0x3A])[..|name|] == name;
    }
  }

  lemma {:induction false} FirstNamed(before: seq<Line>, h: Line, after: seq<Line>, name: Line)
    requires Named(h, name) && forall g :: g in before ==> !Named(g, name)
    ensures GetHeader(before + [h] + after, name) == Some(Trim(h[|name| + 1..]))
  {
    var all := before + [h] + after;
    if |before| > 0 {
      assert before[0] in before;
      assert all[1..] == before[1..] + [h] + after;
      FirstNamed(before[1..], h, after, name);
    }
  }
}
