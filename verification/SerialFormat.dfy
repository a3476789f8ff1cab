/**
  The wire format of kernel/vds_core/binary_serialize.h and .cpp: scalars, strings, buffers and
  any nesting of list, vector, set and map over them.
 */
module SerialFormat {
  import opened Gf2Poly
  import opened Bytes
  import opened Numbers
  import opened Wrappers

  /** The limit of get(const_data_buffer &): 1 GiB. */
  const BUFFER_LIMIT: nat := 0x4000_0000

  datatype Type =
    | TBool
    /** An unsigned number of 1, 2, 4 or 8 bytes. */
    | TNumber(width: nat)
    | TString
    | TBuffer
    | TList(item: Type)
    | TVector(item: Type)
    | TSet(item: Type)
    | TMap(item: Type)
    /** The entry of a map. */
    | TPair(key: Type, value: Type)

  predicate IsType(t: Type) {
    match t
    case TBool => true
    case TNumber(width) => width == 1 || width == 2 || width == 4 || width == 8
    case TString => true
    case TBuffer => true
    case TList(item) => !item.TPair? && IsType(item)
    case TVector(item) => !item.TPair? && IsType(item)
    case TSet(item) => !item.TPair? && IsType(item)
    case TMap(item) => item.TPair? && IsType(item)
    case TPair(key, value) => !key.TPair? && !value.TPair? && IsType(key) && IsType(value)
  }

  predicate IsContainer(t: Type) {
    t.TList? || t.TVector? || t.TSet? || t.TMap?
  }

  datatype Value =
    | Bool(flag: bool)
    | Number(n: nat)
    | Text(bytes: seq<Byte>)
    | Items(items: seq<Value>)
    | Pair(first: Value, second: Value)

  /** A value of the kind that the type says. */
  predicate Shaped(t: Type, v: Value)
    decreases t
  {
    match t
    case TBool => v.Bool?
    case TNumber(_) => v.Number?
    case TString => v.Text?
    case TBuffer => v.Text?
    case TPair(key, value) => v.Pair? && Shaped(key, v.first) && Shaped(value, v.second)
    case _ => v.Items? && forall i :: 0 <= i < |v.items| ==> Shaped(t.item, v.items[i])
  }

  // ----- operator< of the element types -----

  predicate LessBytes(a: seq<Byte>, b: seq<Byte>) {
    |b| > 0 && (|a| == 0 || a[0] < b[0] || (a[0] == b[0] && LessBytes(a[1..], b[1..])))
  }

  /** const_data_buffer compares sizes first; the containers and the strings compare lexicographically. */
  predicate Less(t: Type, a: Value, b: Value)
    requires Shaped(t, a) && Shaped(t, b)
    decreases t, 0
  {
    match t
    case TBool => !a.flag && b.flag
    case TNumber(_) => a.n < b.n
    case TString => LessBytes(a.bytes, b.bytes)
    case TBuffer => |a.bytes| < |b.bytes| || (|a.bytes| == |b.bytes| && LessBytes(a.bytes, b.bytes))
    case TPair(key, value) =>
      Less(key, a.first, b.first) || (!Less(key, b.first, a.first) && Less(value, a.second, b.second))
    case _ => LessItems(t.item, a.items, b.items)
  }

  predicate AllShaped(t: Type, items: seq<Value>) {
    forall i :: 0 <= i < |items| ==> Shaped(t, items[i])
  }

  predicate LessItems(t: Type, a: seq<Value>, b: seq<Value>)
    requires AllShaped(t, a) && AllShaped(t, b)
    decreases t, 1, |a|
  {
    |b| > 0 &&
    (|a| == 0 || Less(t, a[0], b[0]) || (!Less(t, b[0], a[0]) && LessItems(t, a[1..], b[1..])))
  }

  /** The order in which a set or map keeps its elements. */
  predicate Before(t: Type, a: Value, b: Value)
    requires IsContainer(t) && Shaped(t.item, a) && Shaped(t.item, b)
  {
    if t.TMap? && t.item.TPair? then Less(t.item.key, a.first, b.first) else Less(t.item, a, b)
  }

  ghost predicate Sorted(t: Type, items: seq<Value>)
    requires IsContainer(t) && AllShaped(t.item, items)
  {
    (t.TSet? || t.TMap?) ==> forall i, j :: 0 <= i < j < |items| ==> Before(t, items[i], items[j])
  }

  /** A value that a C++ variable of the type can hold. */
  ghost predicate HasType(t: Type, v: Value)
    decreases t
  {
    Shaped(t, v) &&
    match t
    case TBool => true
    case TNumber(width) => v.n < Pow2(8 * width)
    case TString => |v.bytes| < SIZE_LIMIT
    case TBuffer => |v.bytes| < SIZE_LIMIT
    case TPair(key, value) => HasType(key, v.first) && HasType(value, v.second)
    case _ =>
      && |v.items| < SIZE_LIMIT
      && (forall i :: 0 <= i < |v.items| ==> HasType(t.item, v.items[i]))
      && Sorted(t, v.items)
  }

  /** Every buffer in the value is within the limit of the decoder. */
  ghost predicate BuffersFit(t: Type, v: Value)
    requires Shaped(t, v)
    decreases t
  {
    match t
    case TBuffer => |v.bytes| <= BUFFER_LIMIT
    case TPair(key, value) => BuffersFit(key, v.first) && BuffersFit(value, v.second)
    case TBool => true
    case TNumber(_) => true
    case TString => true
    case _ => forall i :: 0 <= i < |v.items| ==> BuffersFit(t.item, v.items[i])
  }

  /** The first difference, where a has the smaller byte. */
  ghost predicate SmallerAt(a: seq<Byte>, b: seq<Byte>, i: nat) {
    i < |a| && i < |b| && a[..i] == b[..i] && a[i] < b[i]
  }

  lemma SmallerLater(a: seq<Byte>, b: seq<Byte>, i: nat)
    requires |a| > 0 && |b| > 0
    ensures SmallerAt(a, b, i + 1) <==> a[0] == b[0] && SmallerAt(a[1..], b[1..], i)
  {
    if i + 1 <= |a| && i + 1 <= |b| {
      assert a[..i + 1] == [a[0]] + a[1..][..i] && b[..i + 1] == [b[0]] + b[1..][..i];
    }
  }

  lemma PrefixLater(a: seq<Byte>, b: seq<Byte>)
    requires |a| > 0 && |b| > 0
    ensures a < b <==> a[0] == b[0] && a[1..] < b[1..]
  {
    assert a == [a[0]] + a[1..] && b == [b[0]] + b[1..];
  }

  lemma DifferenceLater(a: seq<Byte>, b: seq<Byte>)
    requires |a| > 0 && |b| > 0
    ensures (exists i: nat :: SmallerAt(a, b, i)) <==>
            a[0] < b[0] || (a[0] == b[0] && exists j: nat :: SmallerAt(a[1..], b[1..], j))
  {
    if exists i: nat :: SmallerAt(a, b, i) {
      var i: nat :| SmallerAt(a, b, i);
      if i > 0 {
        SmallerLater(a, b, i - 1);
      }
    }
    if a[0] < b[0] {
      assert SmallerAt(a, b, 0);
    }
    if a[0] == b[0] && exists j: nat :: SmallerAt(a[1..], b[1..], j) {
      var j: nat :| SmallerAt(a[1..], b[1..], j);
      SmallerLater(a, b, j);
    }
  }

  /** Strings are ordered by the first difference, and a proper prefix comes first. */
  lemma {:induction false} StringOrder(a: seq<Byte>, b: seq<Byte>)
    ensures LessBytes(a, b) <==> a < b || exists i: nat :: SmallerAt(a, b, i)
  {
    if |a| > 0 && |b| > 0 {
      StringOrder(a[1..], b[1..]);
      PrefixLater(a, b);
      DifferenceLater(a, b);
      hide SmallerAt;
    }
  }

  /** Buffers are ordered by their size, and those of one size by the first difference. */
  lemma BufferOrder(a: seq<Byte>, b: seq<Byte>)
    ensures Less(TBuffer, Text(a), Text(b)) <==> |a| < |b| || (|a| == |b| && exists i: nat :: SmallerAt(a, b, i))
  {
    StringOrder(a, b);
  }

  // ----- Numbers of variable length -----

  /** The shortest big-endian form, at least one byte. */
  function Shortest(n: nat): (s: seq<Byte>)
    ensures |s| >= 1
  {
    (if n < 0x100 then [] else Shortest(n / 0x100)) + [n % 0x100]
  }

  function EncodeNumber(n: nat): (s: seq<Byte>)
    requires n < SIZE_LIMIT
    ensures |s| >= 1
  {
    if n < 128 then [n]
    else
      ShortestFits(n - 128);
      [0x80 + |Shortest(n - 128)|] + Shortest(n - 128)
  }

  lemma {:induction false} ShortestBound(n: nat, k: nat)
    requires k >= 1 && n < Pow2(8 * k)
    ensures |Shortest(n)| <= k
    decreases k
  {
    if n >= 0x100 {
      assert Pow2(8) == 0x100;
      if k > 1 {
        Pow2Add(8 * (k - 1), 8);
        ShortestBound(n / 0x100, k - 1);
      }
    }
  }

  lemma {:induction false} ShortestRead(n: nat)
    ensures BigEndian(Shortest(n)) == n
  {
    var s := Shortest(n);
    if n < 0x100 {
      assert s[..|s| - 1] == [];
    } else {
      ShortestRead(n / 0x100);
      assert s[..|s| - 1] == Shortest(n / 0x100);
    }
  }

  lemma ShortestFits(n: nat)
    requires n < SIZE_LIMIT
    ensures |Shortest(n)| <= 8 && BigEndian(Shortest(n)) == n
  {
    PowersOfBytes();
    ShortestBound(n, 8);
    ShortestRead(n);
  }

  function ReadNumber(data: seq<Byte>): (r: Result<(nat, seq<Byte>)>)
    ensures r.Ok? ==> r.value.0 < SIZE_LIMIT && |r.value.1| < |data|
  {
    if |data| == 0 then Err("Invalid data")
    else if data[0] < 0x80 then Ok((data[0], data[1..]))
    else
      var count := data[0] - 0x80;
      if |data| < 1 + count then Err("Invalid data")
      else
        var result := Wrap64(BigEndian(data[1..1 + count]));
        Ok((Wrap64(result + 0x80), data[1 + count..]))
  }

  lemma LongNumberRead(data: seq<Byte>, s: seq<Byte>, rest: seq<Byte>)
    requires |data| >= 1 + |s| && data[0] == 0x80 + |s| && data[1..1 + |s|] == s && data[1 + |s|..] == rest
    ensures ReadNumber(data) == Ok((Wrap64(Wrap64(BigEndian(s)) + 0x80), rest))
  {
  }

  lemma Parts(b: Byte, s: seq<Byte>, rest: seq<Byte>)
    ensures var data := [b] + s + rest;
            |data| == 1 + |s| + |rest| && data[0] == b && data[1..1 + |s|] == s && data[1 + |s|..] == rest
  {
  }

  /** Every 64-bit number comes back, without overflow or truncation. */
  lemma NumberRoundTrip(n: nat, rest: seq<Byte>)
    requires n < SIZE_LIMIT
    ensures ReadNumber(EncodeNumber(n) + rest) == Ok((n, rest))
  {
    if n < 128 {
      assert (EncodeNumber(n) + rest)[1..] == rest;
    } else {
      LongNumberRoundTrip(n, rest);
    }
  }

  lemma LongForm(n: nat)
    requires 128 <= n < SIZE_LIMIT
    ensures var s := Shortest(n - 128); |s| <= 8 && EncodeNumber(n) == [0x80 + |s|] + s
  {
    ShortestFits(n - 128);
  }

  lemma LongFormRead(n: nat, s: seq<Byte>, rest: seq<Byte>)
    requires 128 <= n < SIZE_LIMIT && |s| <= 8 && BigEndian(s) == n - 128
    ensures ReadNumber([0x80 + |s|] + s + rest) == Ok((n, rest))
  {
    hide BigEndian, ReadNumber;
    Parts(0x80 + |s|, s, rest);
    LongNumberRead([0x80 + |s|] + s + rest, s, rest);
  }

  lemma LongNumberRoundTrip(n: nat, rest: seq<Byte>)
    requires 128 <= n < SIZE_LIMIT
    ensures ReadNumber(EncodeNumber(n) + rest) == Ok((n, rest))
  {
    hide *;
    LongForm(n);
    ShortestFits(n - 128);
    LongFormRead(n, Shortest(n - 128), rest);
  }

  /** Below 128 the number itself; from there on its excess over 128 in as few bytes as possible, after their count. */
  lemma NumberBytes(n: nat)
    requires n < SIZE_LIMIT
    ensures n < 0x80 ==> EncodeNumber(n) == [n]
    ensures n >= 0x80 ==>
      var s := EncodeNumber(n);
      && 2 <= |s| <= 9 && s[0] == 0x80 + (|s| - 1) && BigEndian(s[1..]) == n - 0x80
      && (|s| > 2 ==> s[1] != 0)
  {
    if n >= 0x80 {
      LongForm(n);
      ShortestFits(n - 128);
      NoLeadingZero(n - 128);
      assert EncodeNumber(n)[1..] == Shortest(n - 128);
    }
  }

  lemma {:induction false} NoLeadingZero(n: nat)
    ensures |Shortest(n)| > 1 ==> Shortest(n)[0] != 0
    ensures n > 0 ==> Shortest(n)[0] != 0
  {
    if n >= 0x100 {
      NoLeadingZero(n / 0x100);
    }
  }

  // ----- Values -----

  function Encode(t: Type, v: Value): (s: seq<Byte>)
    requires HasType(t, v)
    decreases t, 0
  {
    match t
    case TBool => [if v.flag then 0xFF else 0]
    case TNumber(width) => ToBigEndian(v.n, width)
    case TString => EncodeNumber(|v.bytes|) + v.bytes
    case TBuffer => EncodeNumber(|v.bytes|) + v.bytes
    case TPair(key, value) => Encode(key, v.first) + Encode(value, v.second)
    case _ => EncodeNumber(|v.items|) + EncodeItems(t.item, v.items)
  }

  ghost predicate AllHaveType(t: Type, items: seq<Value>) {
    forall i :: 0 <= i < |items| ==> HasType(t, items[i])
  }

  function EncodeItems(t: Type, items: seq<Value>): seq<Byte>
    requires AllHaveType(t, items)
    decreases t, 1, |items|
  {
    if |items| == 0 then [] else Encode(t, items[0]) + EncodeItems(t, items[1..])
  }

  /** The bytes of the scalars: FF or 00, and numbers with the most significant byte first. */
  lemma ScalarBytes(flag: bool, n: nat, bytes: seq<Byte>)
    requires n < 0x1_0000 && |bytes| < 0x80
    ensures Encode(TBool, Bool(flag)) == [if flag then 0xFF else 0x00]
    ensures n < Pow2(16) && Encode(TNumber(2), Number(n)) == [n / 0x100, n % 0x100]
    ensures Encode(TString, Text(bytes)) == [|bytes|] + bytes && Encode(TBuffer, Text(bytes)) == [|bytes|] + bytes
  {
    PowersOfBytes();
    TwoBytes(n);
    hide Pow2, ToBigEndian;
  }

  /** The first position whose element is not before x. */
  function LowerBound(t: Type, items: seq<Value>, x: Value): (p: nat)
    requires IsContainer(t) && AllShaped(t.item, items) && Shaped(t.item, x)
    ensures p <= |items| && (p < |items| ==> !Before(t, items[p], x))
    ensures forall i :: 0 <= i < p ==> Before(t, items[i], x)
  {
    if |items| == 0 || !Before(t, items[0], x) then 0 else 1 + LowerBound(t, items[1..], x)
  }

  /** push_back for lists and vectors; emplace, which ignores an equivalent element, for sets and maps. */
  function Insert(t: Type, items: seq<Value>, x: Value): (r: seq<Value>)
    requires IsContainer(t) && AllShaped(t.item, items) && Shaped(t.item, x)
    ensures AllShaped(t.item, r) && |r| <= |items| + 1
  {
    if t.TList? || t.TVector? then items + [x]
    else
      var p := LowerBound(t, items, x);
      if p < |items| && !Before(t, x, items[p]) then items else items[..p] + [x] + items[p..]
  }

  function TakeBytes(n: nat, data: seq<Byte>): (r: Result<(Value, seq<Byte>)>)
    ensures r.Ok? ==> |r.value.1| <= |data|
  {
    if n > |data| then Err("Invalid data") else Ok((Text(data[..n]), data[n..]))
  }

  /** The value at the beginning of the data, and what comes after it. */
  function Decode(t: Type, data: seq<Byte>): (r: Result<(Value, seq<Byte>)>)
    ensures r.Ok? ==> Shaped(t, r.value.0) && |r.value.1| <= |data|
    decreases t, 0
  {
    match t
    case TBool => if |data| < 1 then Err("Invalid data") else Ok((Bool(data[0] != 0), data[1..]))
    case TNumber(width) =>
      if |data| < width then Err("Invalid data") else Ok((Number(BigEndian(data[..width])), data[width..]))
    case TString =>
      (match ReadNumber(data)
       case Err(e) => Err(e)
       case Ok(number) => TakeBytes(number.0, number.1))
    case TBuffer =>
      (match ReadNumber(data)
       case Err(e) => Err(e)
       case Ok(number) =>
         if number.0 > BUFFER_LIMIT then Err("very big object") else TakeBytes(number.0, number.1))
    case TPair(key, value) =>
      (match Decode(key, data)
       case Err(e) => Err(e)
       case Ok(k) =>
         match Decode(value, k.1)
         case Err(e) => Err(e)
         case Ok(v) => Ok((Pair(k.0, v.0), v.1)))
    case _ =>
      match ReadNumber(data)
      case Err(e) => Err(e)
      case Ok(number) =>
        match DecodeItems(t, number.0, number.1, [])
        case Err(e) => Err(e)
        case Ok(r) => Ok((Items(r.0), r.1))
  }

  /** The loop of a container, with the items so far. */
  function DecodeItems(t: Type, count: nat, data: seq<Byte>, items: seq<Value>): (r: Result<(seq<Value>, seq<Byte>)>)
    requires IsContainer(t) && AllShaped(t.item, items)
    ensures r.Ok? ==> AllShaped(t.item, r.value.0) && |r.value.1| <= |data| && |r.value.0| <= |items| + count
    decreases t.item, 1, count
  {
    if count == 0 then Ok((items, data))
    else
      match Decode(t.item, data)
      case Err(e) => Err(e)
      case Ok(x) => DecodeItems(t, count - 1, x.1, Insert(t, items, x.0))
  }

  // ----- The round trip -----

  lemma FixedWidth(v: nat, width: nat, rest: seq<Byte>)
    requires v < Pow2(8 * width)
    ensures (ToBigEndian(v, width) + rest)[..width] == ToBigEndian(v, width)
    ensures (ToBigEndian(v, width) + rest)[width..] == rest && BigEndian(ToBigEndian(v, width)) == v
  {
    BigEndianRoundTrip(v, width);
    SmallModulo(v, Pow2(8 * width));
    hide *;
    var s := ToBigEndian(v, width);
    assert (s + rest)[..width] == s && (s + rest)[width..] == rest;
  }

  lemma SmallModulo(v: nat, m: nat)
    requires v < m
    ensures v % m == v
  {
  }

  lemma BytesRoundTrip(bytes: seq<Byte>, rest: seq<Byte>)
    requires |bytes| < SIZE_LIMIT
    ensures ReadNumber(EncodeNumber(|bytes|) + bytes + rest) == Ok((|bytes|, bytes + rest))
    ensures TakeBytes(|bytes|, bytes + rest) == Ok((Text(bytes), rest))
  {
    assert EncodeNumber(|bytes|) + bytes + rest == EncodeNumber(|bytes|) + (bytes + rest);
    NumberRoundTrip(|bytes|, bytes + rest);
    assert (bytes + rest)[..|bytes|] == bytes && (bytes + rest)[|bytes|..] == rest;
  }

  /**
    Decoding what was encoded gives the value back and leaves exactly what followed it, if and
    only if every buffer is within the decoder's limit; otherwise the decoder fails.
   */
  lemma {:induction false} RoundTrip(t: Type, v: Value, rest: seq<Byte>)
    requires HasType(t, v)
    ensures BuffersFit(t, v) ==> Decode(t, Encode(t, v) + rest) == Ok((v, rest))
    ensures !BuffersFit(t, v) ==> Decode(t, Encode(t, v) + rest).Err?
    decreases t, 2
  {
    match t {
      case TBool =>
        assert (Encode(t, v) + rest)[1..] == rest;
      case TNumber(width) => FixedWidth(v.n, width, rest);
      case TString => TextRoundTrip(t, v, rest);
      case TBuffer => TextRoundTrip(t, v, rest);
      case TPair(_, _) => PairRoundTrip(t, v, rest);
      case _ => ContainerRoundTrip(t, v, rest);
    }
  }

  lemma TextRoundTrip(t: Type, v: Value, rest: seq<Byte>)
    requires HasType(t, v) && (t.TString? || t.TBuffer?)
    ensures BuffersFit(t, v) ==> Decode(t, Encode(t, v) + rest) == Ok((v, rest))
    ensures !BuffersFit(t, v) ==> Decode(t, Encode(t, v) + rest).Err?
  {
    BytesRoundTrip(v.bytes, rest);
    hide ReadNumber, EncodeNumber, TakeBytes;
  }

  lemma PairRoundTrip(t: Type, v: Value, rest: seq<Byte>)
    requires HasType(t, v) && t.TPair?
    ensures BuffersFit(t, v) ==> Decode(t, Encode(t, v) + rest) == Ok((v, rest))
    ensures !BuffersFit(t, v) ==> Decode(t, Encode(t, v) + rest).Err?
    decreases t, 1
  {
    var more := Encode(t.value, v.second) + rest;
    assert Encode(t, v) + rest == Encode(t.key, v.first) + more;
    RoundTrip(t.key, v.first, more);
    RoundTrip(t.value, v.second, rest);
  }

  lemma ContainerRoundTrip(t: Type, v: Value, rest: seq<Byte>)
    requires HasType(t, v) && IsContainer(t)
    ensures BuffersFit(t, v) ==> Decode(t, Encode(t, v) + rest) == Ok((v, rest))
    ensures !BuffersFit(t, v) ==> Decode(t, Encode(t, v) + rest).Err?
    decreases t, 1
  {
    hide ReadNumber, EncodeNumber, DecodeItems, EncodeItems;
    var items := v.items;
    var more := EncodeItems(t.item, items) + rest;
    assert Encode(t, v) + rest == EncodeNumber(|items|) + more;
    NumberRoundTrip(|items|, more);
    assert items[0..] == items && items[..0] == [];
    ItemsRoundTrip(t, items, 0, rest);
  }

  lemma AppendsLast(t: Type, items: seq<Value>, i: nat)
    requires IsContainer(t) && AllShaped(t.item, items) && Sorted(t, items) && i < |items|
    ensures Insert(t, items[..i], items[i]) == items[..i + 1]
  {
    var p := if t.TSet? || t.TMap? then LowerBound(t, items[..i], items[i]) else i;
    assert p == i;
    assert items[..i] + [items[i]] + items[..i][i..] == items[..i + 1];
  }

  lemma {:induction false} ItemsRoundTrip(t: Type, items: seq<Value>, i: nat, rest: seq<Byte>)
    requires IsContainer(t) && AllHaveType(t.item, items) && AllShaped(t.item, items) && Sorted(t, items)
    requires i <= |items|
    ensures var r := DecodeItems(t, |items| - i, EncodeItems(t.item, items[i..]) + rest, items[..i]);
      && ((forall j :: i <= j < |items| ==> BuffersFit(t.item, items[j])) ==> r == Ok((items, rest)))
      && ((exists j :: i <= j < |items| && !BuffersFit(t.item, items[j])) ==> r.Err?)
    decreases t.item, 3, |items| - i
  {
    hide Insert, Sorted, BuffersFit, HasType, Decode, Encode, Less, Before;
    if i == |items| {
      assert [] + rest == rest && items[..i] == items;
    } else {
      var tail, x := items[i..], items[i];
      var more := EncodeItems(t.item, items[i + 1..]) + rest;
      assert tail[0] == x && tail[1..] == items[i + 1..];
      assert EncodeItems(t.item, tail) + rest == Encode(t.item, x) + more;
      RoundTrip(t.item, x, more);
      AppendsLast(t, items, i);
      ItemsRoundTrip(t, items, i + 1, rest);
    }
  }

  // ----- The order is a strict total order -----

  lemma {:induction false} BytesTotal(a: seq<Byte>, b: seq<Byte>)
    requires !LessBytes(a, b) && !LessBytes(b, a)
    ensures a == b
  {
    if |a| > 0 && |b| > 0 {
      BytesTotal(a[1..], b[1..]);
      assert a == [a[0]] + a[1..] && b == [b[0]] + b[1..];
    }
  }

  lemma {:induction false} BytesTransitive(a: seq<Byte>, b: seq<Byte>, c: seq<Byte>)
    requires LessBytes(a, b) && LessBytes(b, c)
    ensures LessBytes(a, c)
  {
    if |a| > 0 && a[0] == b[0] == c[0] {
      BytesTransitive(a[1..], b[1..], c[1..]);
    }
  }

  lemma {:induction false} Total(t: Type, a: Value, b: Value)
    requires Shaped(t, a) && Shaped(t, b) && !Less(t, a, b) && !Less(t, b, a)
    ensures a == b
    decreases t, 0
  {
    match t {
      case TBool =>
      case TNumber(_) =>
      case TString => BytesTotal(a.bytes, b.bytes);
      case TBuffer => BytesTotal(a.bytes, b.bytes);
      case TPair(key, value) =>
        Total(key, a.first, b.first);
        Total(value, a.second, b.second);
      case _ => ItemsTotal(t.item, a.items, b.items);
    }
  }

  lemma {:induction false} ItemsTotal(t: Type, a: seq<Value>, b: seq<Value>)
    requires AllShaped(t, a) && AllShaped(t, b) && !LessItems(t, a, b) && !LessItems(t, b, a)
    ensures a == b
    decreases t, 1, |a|
  {
    if |a| > 0 && |b| > 0 {
      Total(t, a[0], b[0]);
      ItemsTotal(t, a[1..], b[1..]);
      assert a == [a[0]] + a[1..] && b == [b[0]] + b[1..];
    }
  }

  lemma {:induction false} Transitive(t: Type, a: Value, b: Value, c: Value)
    requires Shaped(t, a) && Shaped(t, b) && Shaped(t, c) && Less(t, a, b) && Less(t, b, c)
    ensures Less(t, a, c)
    decreases t, 0
  {
    match t {
      case TBool =>
      case TNumber(_) =>
      case TString => BytesTransitive(a.bytes, b.bytes, c.bytes);
      case TBuffer =>
        if |a.bytes| == |b.bytes| == |c.bytes| {
          BytesTransitive(a.bytes, b.bytes, c.bytes);
        }
      case TPair(_, _) => PairTransitive(t, a, b, c);
      case _ => ItemsTransitive(t.item, a.items, b.items, c.items);
    }
  }

  /** a before b before c with ties at the first place: the tie of two is an equality. */
  lemma HeadTransitive(t: Type, a: Value, b: Value, c: Value)
    requires Shaped(t, a) && Shaped(t, b) && Shaped(t, c)
    requires !Less(t, b, a) && !Less(t, c, b)
    ensures a == b || Less(t, a, b)
    ensures b == c || Less(t, b, c)
    ensures a == b == c || Less(t, a, c)
    decreases t, 1
  {
    if !Less(t, a, b) {
      Total(t, a, b);
    }
    if !Less(t, b, c) {
      Total(t, b, c);
    }
    if Less(t, a, b) && Less(t, b, c) {
      Transitive(t, a, b, c);
    }
  }

  lemma {:induction false} Asymmetric(t: Type, a: Value, b: Value)
    requires Shaped(t, a) && Shaped(t, b) && Less(t, a, b)
    ensures !Less(t, b, a)
    decreases t, 0
  {
    match t {
      case TBool =>
      case TNumber(_) =>
      case TString => BytesAsymmetric(a.bytes, b.bytes);
      case TBuffer =>
        if LessBytes(a.bytes, b.bytes) {
          BytesAsymmetric(a.bytes, b.bytes);
        }
      case TPair(key, value) =>
        if Less(key, a.first, b.first) {
          Asymmetric(key, a.first, b.first);
        } else {
          Asymmetric(value, a.second, b.second);
        }
      case _ => ItemsAsymmetric(t.item, a.items, b.items);
    }
  }

  lemma {:induction false} BytesAsymmetric(a: seq<Byte>, b: seq<Byte>)
    requires LessBytes(a, b)
    ensures !LessBytes(b, a)
  {
    if |a| > 0 && a[0] == b[0] {
      BytesAsymmetric(a[1..], b[1..]);
    }
  }

  lemma {:induction false} ItemsAsymmetric(t: Type, a: seq<Value>, b: seq<Value>)
    requires AllShaped(t, a) && AllShaped(t, b) && LessItems(t, a, b)
    ensures !LessItems(t, b, a)
    decreases t, 1, |a|
  {
    if |a| > 0 {
      if Less(t, a[0], b[0]) {
        Asymmetric(t, a[0], b[0]);
      } else {
        ItemsAsymmetric(t, a[1..], b[1..]);
      }
    }
  }

  lemma PairTransitive(t: Type, a: Value, b: Value, c: Value)
    requires t.TPair? && Shaped(t, a) && Shaped(t, b) && Shaped(t, c) && Less(t, a, b) && Less(t, b, c)
    ensures Less(t, a, c)
    decreases t, 0, 0
  {
    NotAfter(t.key, a.first, b.first);
    NotAfter(t.key, b.first, c.first);
    HeadTransitive(t.key, a.first, b.first, c.first);
    if a.first == b.first == c.first {
      Irreflexive(t.key, a.first);
      Transitive(t.value, a.second, b.second, c.second);
    }
  }

  lemma NotAfter(t: Type, a: Value, b: Value)
    requires Shaped(t, a) && Shaped(t, b)
    ensures Less(t, a, b) ==> !Less(t, b, a)
  {
    if Less(t, a, b) {
      Asymmetric(t, a, b);
    }
  }

  lemma Irreflexive(t: Type, a: Value)
    requires Shaped(t, a)
    ensures !Less(t, a, a)
  {
    NotAfter(t, a, a);
  }

  lemma {:induction false} ItemsTransitive(t: Type, a: seq<Value>, b: seq<Value>, c: seq<Value>)
    requires AllShaped(t, a) && AllShaped(t, b) && AllShaped(t, c) && LessItems(t, a, b) && LessItems(t, b, c)
    ensures LessItems(t, a, c)
    decreases t, 2, |a|
  {
    if |a| > 0 {
      NotAfter(t, a[0], b[0]);
      NotAfter(t, b[0], c[0]);
      HeadTransitive(t, a[0], b[0], c[0]);
      if a[0] == b[0] == c[0] {
        Irreflexive(t, a[0]);
        ItemsTransitive(t, a[1..], b[1..], c[1..]);
      }
    }
  }

  // ----- What the decoder returns -----

  /** Whether an element that is neither before nor after x is there already. */
  ghost predicate HasEquivalent(t: Type, items: seq<Value>, x: Value)
    requires IsContainer(t) && AllShaped(t.item, items) && Shaped(t.item, x)
  {
    exists i :: 0 <= i < |items| && !Before(t, items[i], x) && !Before(t, x, items[i])
  }

  /** emplace adds an element to a set or map, unless an equivalent one is there: then nothing changes. */
  lemma InsertMeans(t: Type, items: seq<Value>, x: Value)
    requires IsContainer(t) && (t.TMap? ==> t.item.TPair?) && (t.TSet? || t.TMap?)
    requires AllShaped(t.item, items) && Shaped(t.item, x) && Sorted(t, items)
    ensures HasEquivalent(t, items, x) ==> Insert(t, items, x) == items
    ensures !HasEquivalent(t, items, x) ==>
      exists p :: 0 <= p <= |items| && Insert(t, items, x) == items[..p] + [x] + items[p..]
  {
    var p := LowerBound(t, items, x);
    hide Before, Shaped;
    if p < |items| && !Before(t, x, items[p]) {
      assert HasEquivalent(t, items, x) && Insert(t, items, x) == items;
    } else {
      assert Insert(t, items, x) == items[..p] + [x] + items[p..];
      forall i | 0 <= i < |items| ensures Before(t, items[i], x) || Before(t, x, items[i]) {
        if i > p {
          BeforeTransitive(t, x, items[p], items[i]);
        }
      }
    }
  }

  /** emplace keeps a set or map sorted. */
  lemma InsertSorted(t: Type, items: seq<Value>, x: Value)
    requires IsContainer(t) && (t.TMap? ==> t.item.TPair?)
    requires AllShaped(t.item, items) && Shaped(t.item, x) && Sorted(t, items)
    ensures Sorted(t, Insert(t, items, x))
  {
    if t.TSet? || t.TMap? {
      var p, r := LowerBound(t, items, x), Insert(t, items, x);
      if p == |items| || Before(t, x, items[p]) {
        hide Before;
        assert r == items[..p] + [x] + items[p..];
        forall j | p <= j < |items| ensures Before(t, x, items[j]) {
          if j > p {
            BeforeTransitive(t, x, items[p], items[j]);
          }
        }
        InsertedSorted(t, items, p, x);
      }
    }
  }

  lemma InsertedSorted(t: Type, items: seq<Value>, p: nat, x: Value)
    requires IsContainer(t) && AllShaped(t.item, items) && Shaped(t.item, x) && p <= |items|
    requires forall i, j :: 0 <= i < j < |items| ==> Before(t, items[i], items[j])
    requires forall i :: 0 <= i < p ==> Before(t, items[i], x)
    requires forall j :: p <= j < |items| ==> Before(t, x, items[j])
    ensures AllShaped(t.item, items[..p] + [x] + items[p..]) && Sorted(t, items[..p] + [x] + items[p..])
  {
    hide Before, Shaped;
    var r := items[..p] + [x] + items[p..];
    assert forall i :: 0 <= i < |r| ==> r[i] == if i < p then items[i] else if i == p then x else items[i - 1];
  }

  lemma BeforeTransitive(t: Type, a: Value, b: Value, c: Value)
    requires IsContainer(t) && (t.TMap? ==> t.item.TPair?)
    requires Shaped(t.item, a) && Shaped(t.item, b) && Shaped(t.item, c) && Before(t, a, b) && Before(t, b, c)
    ensures Before(t, a, c)
  {
    if t.TMap? {
      Transitive(t.item.key, a.first, b.first, c.first);
    } else {
      Transitive(t.item, a, b, c);
    }
  }

  ghost predicate IsRest(rest: seq<Byte>, data: seq<Byte>) {
    |rest| <= |data| && data[|data| - |rest|..] == rest
  }

  /** The decoder's result is a value that the type allows and the decoder accepts again. */
  ghost predicate Sound(t: Type, data: seq<Byte>) {
    Decode(t, data).Ok? ==>
      var r := Decode(t, data).value;
      HasType(t, r.0) && BuffersFit(t, r.0) && IsRest(r.1, data)
  }

  /** Whatever the bytes: sets and maps come out sorted without duplicates, numbers within their width. */
  lemma {:induction false} DecodeSound(t: Type, data: seq<Byte>)
    requires IsType(t)
    ensures Sound(t, data)
    decreases t, 2
  {
    if t.TPair? {
      PairSound(t, data);
    } else if IsContainer(t) {
      ContainerSound(t, data);
    } else {
      ScalarSound(t, data);
    }
  }

  lemma ScalarSound(t: Type, data: seq<Byte>)
    requires IsType(t) && !t.TPair? && !IsContainer(t)
    ensures Sound(t, data)
  {
    if t.TNumber? {
      if |data| >= t.width {
        BigEndianBound(data[..t.width]);
      }
    } else if !t.TBool? {
      NumberRest(data);
      hide ReadNumber;
    }
  }

  lemma PairSound(t: Type, data: seq<Byte>)
    requires IsType(t) && t.TPair?
    ensures Sound(t, data)
    decreases t, 1
  {
    DecodeSound(t.key, data);
    if Decode(t.key, data).Ok? {
      DecodeSound(t.value, Decode(t.key, data).value.1);
    }
  }

  lemma ContainerSound(t: Type, data: seq<Byte>)
    requires IsType(t) && IsContainer(t)
    ensures Sound(t, data)
    decreases t, 1
  {
    hide ReadNumber, DecodeItems;
    NumberRest(data);
    if ReadNumber(data).Ok? {
      var number := ReadNumber(data).value;
      ItemsSound(t, number.0, number.1, []);
    }
  }

  lemma NumberRest(data: seq<Byte>)
    ensures ReadNumber(data).Ok? ==> IsRest(ReadNumber(data).value.1, data)
  {
  }

  lemma {:induction false} ItemsSound(t: Type, count: nat, data: seq<Byte>, items: seq<Value>)
    requires IsType(t) && IsContainer(t) && AllShaped(t.item, items) && Sorted(t, items)
    requires forall i :: 0 <= i < |items| ==> HasType(t.item, items[i]) && BuffersFit(t.item, items[i])
    ensures DecodeItems(t, count, data, items).Ok? ==>
              var r := DecodeItems(t, count, data, items).value;
              && Sorted(t, r.0) && IsRest(r.1, data)
              && forall i :: 0 <= i < |r.0| ==> HasType(t.item, r.0[i]) && BuffersFit(t.item, r.0[i])
    decreases t.item, 3, count
  {
    hide HasType, BuffersFit, Sorted, Insert, Shaped, Decode;
    if count > 0 {
      DecodeSound(t.item, data);
      if Decode(t.item, data).Ok? {
        var x := Decode(t.item, data).value;
        InsertSorted(t, items, x.0);
        InsertedAre(t, items, x.0);
        ItemsSound(t, count - 1, x.1, Insert(t, items, x.0));
      }
    }
  }

  lemma InsertedAre(t: Type, items: seq<Value>, x: Value)
    requires IsContainer(t) && AllShaped(t.item, items) && Shaped(t.item, x)
    ensures forall i :: 0 <= i < |Insert(t, items, x)| ==> Insert(t, items, x)[i] == x || Insert(t, items, x)[i] in items
  {
  }

  /** Any accepted input is equivalent to the encoding of the value it yields. */
  lemma AcceptedComesBack(t: Type, data: seq<Byte>, rest: seq<Byte>)
    requires IsType(t) && Decode(t, data).Ok?
    ensures HasType(t, Decode(t, data).value.0)
    ensures Decode(t, Encode(t, Decode(t, data).value.0) + rest) == Ok((Decode(t, data).value.0, rest))
  {
    DecodeSound(t, data);
    RoundTrip(t, Decode(t, data).value.0, rest);
  }

  // ----- Messages: the fields that a message names to the visitors -----

  ghost predicate FieldsTyped(types: seq<Type>, fields: seq<Value>) {
    |types| == |fields| && forall i :: 0 <= i < |types| ==> HasType(types[i], fields[i])
  }

  function EncodeFields(types: seq<Type>, fields: seq<Value>): seq<Byte>
    requires FieldsTyped(types, fields)
  {
    if |types| == 0 then []
    else
      var n := |types| - 1;
      EncodeFields(types[..n], fields[..n]) + Encode(types[n], fields[n])
  }

  /** The fields in order; the first error stops the reading. */
  function DecodeFields(types: seq<Type>, data: seq<Byte>): (r: Result<(seq<Value>, seq<Byte>)>)
    ensures r.Ok? ==> |r.value.0| == |types|
  {
    if |types| == 0 then Ok(([], data))
    else
      var n := |types| - 1;
      match DecodeFields(types[..n], data)
      case Err(e) => Err(e)
      case Ok(before) =>
        match Decode(types[n], before.1)
        case Err(e) => Err(e)
        case Ok(x) => Ok((before.0 + [x.0], x.1))
  }

  ghost predicate FieldsFit(types: seq<Type>, fields: seq<Value>)
    requires FieldsTyped(types, fields)
  {
    forall i :: 0 <= i < |types| ==> BuffersFit(types[i], fields[i])
  }

  lemma FieldsSplit(types: seq<Type>, fields: seq<Value>, n: nat)
    requires FieldsTyped(types, fields) && |types| == n + 1
    ensures FieldsTyped(types[..n], fields[..n]) && HasType(types[n], fields[n])
    ensures FieldsFit(types, fields) <==> FieldsFit(types[..n], fields[..n]) && BuffersFit(types[n], fields[n])
    ensures fields[..n] + [fields[n]] == fields
  {
    hide BuffersFit;
    if FieldsFit(types, fields) {
      forall i | 0 <= i < n ensures BuffersFit(types[..n][i], fields[..n][i]) {
        assert BuffersFit(types[i], fields[i]);
      }
    }
    if FieldsFit(types[..n], fields[..n]) {
      forall i | 0 <= i < n ensures BuffersFit(types[i], fields[i]) {
        assert BuffersFit(types[..n][i], fields[..n][i]);
      }
    }
  }

  lemma FieldsDecodeStep(types: seq<Type>, data: seq<Byte>, n: nat)
    requires |types| == n + 1
    ensures var before := DecodeFields(types[..n], data);
      && (before.Err? ==> DecodeFields(types, data).Err?)
      && (before.Ok? && Decode(types[n], before.value.1).Err? ==> DecodeFields(types, data).Err?)
      && (before.Ok? && Decode(types[n], before.value.1).Ok? ==>
            var x := Decode(types[n], before.value.1).value;
            DecodeFields(types, data) == Ok((before.value.0 + [x.0], x.1)))
  {
    hide Decode;
  }

  lemma FieldsTextSplit(types: seq<Type>, fields: seq<Value>, n: nat, rest: seq<Byte>)
    requires FieldsTyped(types, fields) && |types| == n + 1 && FieldsTyped(types[..n], fields[..n])
    ensures EncodeFields(types, fields) + rest
         == EncodeFields(types[..n], fields[..n]) + (Encode(types[n], fields[n]) + rest)
  {
    hide Encode, HasType;
  }

  /**
    A message comes back, and what follows it stays, if and only if the buffers in its fields
    are within the limit; otherwise reading it fails.
   */
  lemma {:induction false} MessageRoundTrip(types: seq<Type>, fields: seq<Value>, rest: seq<Byte>)
    requires FieldsTyped(types, fields)
    ensures FieldsFit(types, fields) ==> DecodeFields(types, EncodeFields(types, fields) + rest) == Ok((fields, rest))
    ensures !FieldsFit(types, fields) ==> DecodeFields(types, EncodeFields(types, fields) + rest).Err?
  {
    if |types| == 0 {
      assert [] + rest == rest;
    } else {
      var n := |types| - 1;
      hide *;
      FieldsSplit(types, fields, n);
      FieldsTextSplit(types, fields, n, rest);
      FieldsDecodeStep(types, EncodeFields(types, fields) + rest, n);
      MessageRoundTrip(types[..n], fields[..n], Encode(types[n], fields[n]) + rest);
      RoundTrip(types[n], fields[n], rest);
    }
  }

  /** A byte other than 00 is read as true, and a buffer is read back exactly up to 2^30 bytes. */
  lemma DecodedBytes(b: Byte, bytes: seq<Byte>, rest: seq<Byte>)
    requires |bytes| < SIZE_LIMIT
    ensures Decode(TBool, [b] + rest) == Ok((Bool(b != 0), rest))
    ensures Decode(TBuffer, Encode(TBuffer, Text(bytes)) + rest).Ok? <==> |bytes| <= 1024 * 1024 * 1024
  {
    assert ([b] + rest)[1..] == rest;
    assert Encode(TBuffer, Text(bytes)) + rest == EncodeNumber(|bytes|) + (bytes + rest);
    NumberRoundTrip(|bytes|, bytes + rest);
    hide EncodeNumber, ReadNumber;
  }
}
