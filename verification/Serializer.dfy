/**
  The classes binary_serializer and binary_deserializer of kernel/vds_core/binary_serialize.h
  and .cpp. Every operation is proved against the wire format of SerialFormat.
 */
module Serializer {
  import opened Gf2Poly
  import opened Bytes
  import opened Numbers
  import opened SerialFormat
  import opened Wrappers

  class BinarySerializer {
    var data: seq<Byte>

    constructor ()
      ensures data == []
    {
      data := [];
    }

    method PutBool(value: bool)
      modifies this
      ensures data == old(data) + Encode(TBool, Bool(value))
    {
      data := data + [if value then 0xFF else 0];
    }

    method PutU8(value: nat)
      requires value < 0x100
      modifies this
      ensures data == old(data) + [value]
    {
      data := data + [value];
    }

    method PutU16(value: nat)
      requires value < 0x1_0000
      modifies this
      ensures data == old(data) + [value / 0x100, value % 0x100]
    {
      data := data + [(value / 0x100) % 0x100];
      data := data + [value % 0x100];
    }

    method PutU32(value: nat)
      modifies this
      ensures data == old(data) + ToBigEndian(value, 4)
    {
      FourBytes(value);
      hide ToBigEndian;
      data := data + [(value / 0x100_0000) % 0x100];
      data := data + [(value / 0x1_0000) % 0x100];
      data := data + [(value / 0x100) % 0x100];
      data := data + [value % 0x100];
    }

    method PutU64(value: nat)
      modifies this
      ensures data == old(data) + ToBigEndian(value, 8)
    {
      EightBytes(value);
      hide ToBigEndian;
      data := data + [(value / 0x100_0000_0000_0000) % 0x100];
      data := data + [(value / 0x1_0000_0000_0000) % 0x100];
      data := data + [(value / 0x100_0000_0000) % 0x100];
      data := data + [(value / 0x1_0000_0000) % 0x100];
      data := data + [(value / 0x100_0000) % 0x100];
      data := data + [(value / 0x1_0000) % 0x100];
      data := data + [(value / 0x100) % 0x100];
      data := data + [value % 0x100];
    }

    /** write_number: the bytes are collected least significant first and written in reverse. */
    method WriteNumber(value: nat)
      requires value < SIZE_LIMIT
      modifies this
      ensures data == old(data) + EncodeNumber(value)
    {
      if 128 > value {
        data := data + [value];
        return;
      }
      WriteLongNumber(value);
    }

    method WriteLongNumber(value: nat)
      requires 128 <= value < SIZE_LIMIT
      modifies this
      ensures data == old(data) + EncodeNumber(value)
    {
      hide *;
      LongForm(value);
      var bytes, index := CollectBytes(value - 128);
      data := data + [0x80 + index];
      PutReversed(bytes, index);
    }

    /** The loop that writes the collected bytes, the last one first. */
    method PutReversed(bytes: array<Byte>, count: nat)
      requires count <= bytes.Length
      modifies this
      ensures data == old(data) + Reversed(bytes[..count])
    {
      ghost var digits := bytes[..count];
      var index := count;
      assert Reversed(digits[index..]) == [];
      while index > 0
        invariant index <= count && bytes[..count] == digits
        invariant data == old(data) + Reversed(digits[index..])
      {
        index := index - 1;
        assert bytes[index] == digits[index];
        assert digits[index..][1..] == digits[index + 1..];
        data := data + [bytes[index]];
      }
      assert digits[0..] == digits;
    }

    /** The loop that takes the bytes off a number, at least one. */
    static method CollectBytes(value: nat) returns (bytes: array<Byte>, index: nat)
      requires |Shortest(value)| <= 8
      ensures fresh(bytes) && index == |Shortest(value)| <= bytes.Length && Reversed(bytes[..index]) == Shortest(value)
    {
      hide Shortest, Reversed;
      bytes := new Byte[8](_ => 0);
      index := 0;
      var left := value;
      var more := true;
      assert Reversed([]) == [] && bytes[..0] == [];
      while more
        invariant index <= 8 && left >= 0
        invariant more ==> |Shortest(left)| + index == |Shortest(value)|
        invariant (if more then Shortest(left) else []) + Reversed(bytes[..index]) == Shortest(value)
        decreases more, left
      {
        ghost var low := bytes[..index];
        ShortestStep(left);
        ReversedSnoc(low, left % 0x100);
        bytes[index] := left % 0x100;
        assert bytes[..index + 1] == low + [left % 0x100];
        index := index + 1;
        left := left / 0x100;
        more := left != 0;
      }
    }

    /** put(const std::string &). */
    method PutString(value: seq<Byte>)
      requires |value| < SIZE_LIMIT
      modifies this
      ensures data == old(data) + EncodeNumber(|value|) + value
    {
      WriteNumber(|value|);
      data := data + value;
    }

    /** push_data; put(const const_data_buffer &) is the case with the size. */
    method PushData(value: seq<Byte>, serializeSize: bool)
      requires |value| < SIZE_LIMIT
      modifies this
      ensures data == old(data) + (if serializeSize then EncodeNumber(|value|) else []) + value
    {
      if serializeSize {
        WriteNumber(|value|);
      }
      data := data + value;
    }

    /** operator << of all types; the containers write their size and then every element. */
    method Put(t: Type, v: Value)
      requires HasType(t, v) && IsType(t)
      modifies this
      ensures data == old(data) + Encode(t, v)
      decreases t, 1
    {
      if t.TPair? {
        PutPair(t, v);
      } else if IsContainer(t) {
        PutContainer(t, v);
      } else {
        hide EncodeNumber, ToBigEndian, Pow2;
        match t {
          case TBool => PutBool(v.flag);
          case TNumber(width) => PutNumber(width, v.n);
          case TString => PutString(v.bytes);
          case TBuffer => PushData(v.bytes, true);
        }
      }
    }

    method PutPair(t: Type, v: Value)
      requires HasType(t, v) && IsType(t) && t.TPair?
      modifies this
      ensures data == old(data) + Encode(t, v)
      decreases t, 0
    {
      PairEncoding(t, v);
      hide Encode, HasType;
      ghost var before, a, b := data, Encode(t.key, v.first), Encode(t.value, v.second);
      Put(t.key, v.first);
      Put(t.value, v.second);
      assert before + a + b == before + (a + b);
    }

    method PutContainer(t: Type, v: Value)
      requires HasType(t, v) && IsType(t) && IsContainer(t)
      modifies this
      ensures data == old(data) + Encode(t, v)
      decreases t, 0
    {
      ContainerEncoding(t, v);
      hide Encode, HasType, EncodeNumber, EncodeItems;
      ghost var before, a, b := data, EncodeNumber(|v.items|), EncodeItems(t.item, v.items);
      WriteNumber(|v.items|);
      PutItems(t.item, v.items);
      assert before + a + b == before + (a + b);
    }

    method PutItems(t: Type, items: seq<Value>)
      requires IsType(t) && AllHaveType(t, items)
      modifies this
      ensures data == old(data) + EncodeItems(t, items)
      decreases t, 2
    {
      hide *;
      NoItems(t);
      ghost var done := [];
      for i := 0 to |items|
        invariant data == old(data) + done
        invariant AllHaveType(t, items[i..]) && done + EncodeItems(t, items[i..]) == EncodeItems(t, items)
      {
        ItemsStep(t, items, i);
        ghost var code, rest := Encode(t, items[i]), EncodeItems(t, items[i + 1..]);
        assert done + (code + rest) == done + code + rest;
        assert old(data) + (done + code) == old(data) + done + code;
        Put(t, items[i]);
        done := done + code;
      }
      assert items[|items|..] == [] && done + [] == done;
    }

    method PutNumber(width: nat, n: nat)
      requires (width == 1 || width == 2 || width == 4 || width == 8) && n < Pow2(8 * width)
      modifies this
      ensures data == old(data) + ToBigEndian(n, width)
    {
      NarrowNumbers(width, n);
      hide *;
      match width {
        case 1 => PutU8(n);
        case 2 => PutU16(n);
        case 4 => PutU32(n);
        case _ => PutU64(n);
      }
    }
  }

  lemma ShortestStep(n: nat)
    ensures Shortest(n) == (if n / 0x100 == 0 then [] else Shortest(n / 0x100)) + [n % 0x100]
  {
  }

  function Reversed(s: seq<Byte>): (r: seq<Byte>)
    ensures |r| == |s|
  {
    if |s| == 0 then [] else Reversed(s[1..]) + [s[0]]
  }

  lemma {:induction false} ReversedSnoc(s: seq<Byte>, b: Byte)
    ensures Reversed(s + [b]) == [b] + Reversed(s)
  {
    if |s| == 0 {
      assert s + [b] == [b];
      assert Reversed([b]) == Reversed([]) + [b];
    } else {
      assert (s + [b])[1..] == s[1..] + [b];
      ReversedSnoc(s[1..], b);
    }
  }

  lemma NarrowNumbers(width: nat, n: nat)
    requires n < Pow2(8 * width)
    ensures width == 1 ==> n < 0x100 && ToBigEndian(n, width) == [n]
    ensures width == 2 ==> n < 0x1_0000 && ToBigEndian(n, width) == [n / 0x100, n % 0x100]
  {
    PowersOfBytes();
    assert Pow2(8) == 0x100;
    OneByte(n);
    TwoBytes(n);
    hide Pow2, ToBigEndian;
  }

  lemma NoItems(t: Type)
    ensures EncodeItems(t, []) == []
  {
  }

  lemma ItemsStep(t: Type, items: seq<Value>, i: nat)
    requires AllHaveType(t, items) && i < |items|
    ensures HasType(t, items[i]) && AllHaveType(t, items[i..]) && AllHaveType(t, items[i + 1..])
    ensures EncodeItems(t, items[i..]) == Encode(t, items[i]) + EncodeItems(t, items[i + 1..])
  {
    assert items[i..][1..] == items[i + 1..];
  }

  lemma PairEncoding(t: Type, v: Value)
    requires HasType(t, v) && t.TPair?
    ensures HasType(t.key, v.first) && HasType(t.value, v.second)
    ensures Encode(t, v) == Encode(t.key, v.first) + Encode(t.value, v.second)
  {
  }

  lemma ContainerEncoding(t: Type, v: Value)
    requires HasType(t, v) && IsContainer(t)
    ensures |v.items| < SIZE_LIMIT && AllHaveType(t.item, v.items)
    ensures Encode(t, v) == EncodeNumber(|v.items|) + EncodeItems(t.item, v.items)
    ensures EncodeItems(t.item, v.items[|v.items|..]) == []
  {
  }

  class BinaryDeserializer {
    /** The bytes from the current position to the end. */
    var data: seq<Byte>

    constructor (bytes: seq<Byte>)
      ensures data == bytes
    {
      data := bytes;
    }

    method GetBool() returns (r: Result<Value>)
      modifies this
      ensures Reads(TBool, old(data), r, data)
    {
      if 1 > |data| {
        return Err("Invalid data");
      }
      r := Ok(Bool(0 != data[0]));
      data := data[1..];
    }

    /** get of the unsigned types: the bytes are shifted in one by one. */
    method GetNumber(width: nat) returns (r: Result<Value>)
      modifies this
      ensures Reads(TNumber(width), old(data), r, data)
    {
      if width > |data| {
        return Err("Invalid data");
      }
      var value: nat := 0;
      for i := 0 to width
        invariant data == old(data)[i..] && value == BigEndian(old(data)[..i])
      {
        assert old(data)[..i + 1][..i] == old(data)[..i];
        value := 0x100 * value + data[0];
        data := data[1..];
      }
      r := Ok(Number(value));
    }

    /** read_number: the count may be up to 127, so the result can lose its high bytes. */
    method ReadNumber() returns (r: Result<nat>)
      modifies this
      ensures match SerialFormat.ReadNumber(old(data))
              case Ok(n) => r == Ok(n.0) && data == n.1
              case Err(_) => r.Err?
    {
      if 1 > |data| {
        return Err("Invalid data");
      }
      var value := data[0];
      data := data[1..];
      if 0x80 > value {
        return Ok(value);
      }
      var result: nat := 0;
      var count := value - 0x80;
      ghost var bytes := data;
      var i := count;
      while i > 0
        invariant 0 <= i <= count && count - i <= |bytes| && data == bytes[count - i..]
        invariant result == Wrap64(BigEndian(bytes[..count - i]))
      {
        hide Wrap64;
        if 1 > |data| {
          return Err("Invalid data");
        }
        ghost var n := count - i;
        assert bytes[..n + 1][..n] == bytes[..n];
        WrapStep(BigEndian(bytes[..n]), bytes[n]);
        result := Wrap64(result * 0x100) + data[0];
        data := data[1..];
        i := i - 1;
      }
      assert old(data)[1..1 + count] == bytes[..count] && old(data)[1 + count..] == bytes[count..];
      r := Ok(Wrap64(result + 0x80));
    }

    /** get(std::string &): the bytes are read one by one. */
    method GetString() returns (r: Result<Value>)
      modifies this
      ensures Reads(TString, old(data), r, data)
    {
      hide SerialFormat.ReadNumber;
      var len := ReadNumber();
      if len.Err? {
        return Err(len.message);
      }
      ghost var bytes := data;
      var value := [];
      for i := 0 to len.value
        invariant i <= |bytes| && data == bytes[i..] && value == bytes[..i]
      {
        if 1 > |data| {
          return Err("Invalid data");
        }
        value := value + [data[0]];
        data := data[1..];
      }
      r := Ok(Text(value));
    }

    /** get(const_data_buffer &). */
    method GetBuffer() returns (r: Result<Value>)
      modifies this
      ensures Reads(TBuffer, old(data), r, data)
    {
      hide SerialFormat.ReadNumber;
      var len := ReadNumber();
      if len.Err? {
        return Err(len.message);
      }
      if len.value > 1024 * 1024 * 1024 {
        return Err("very big object");
      }
      if len.value > |data| {
        return Err("Invalid data");
      }
      r := Ok(Text(data[..len.value]));
      data := data[len.value..];
    }

    /** pop_data into a buffer of the given size. */
    method PopData(size: nat, serializeSize: bool) returns (r: Result<seq<Byte>>)
      modifies this
      ensures !serializeSize ==> (r.Ok? <==> size <= |old(data)|)
      ensures r.Ok? && !serializeSize ==> |r.value| == size && old(data) == r.value + data
      ensures serializeSize ==>
        match SerialFormat.ReadNumber(old(data))
        case Err(_) => r.Err?
        case Ok(n) =>
          && (r.Ok? <==> n.0 <= size && n.0 <= |n.1|)
          && (r.Ok? ==> |r.value| == n.0 && n.1 == r.value + data)
    {
      var count := size;
      if serializeSize {
        var len := ReadNumber();
        if len.Err? {
          return Err(len.message);
        }
        if size < len.value {
          return Err("Buffer too small");
        }
        count := len.value;
      }
      if count > |data| {
        return Err("Invalid data");
      }
      ghost var before := data;
      r := Ok(data[..count]);
      data := data[count..];
      assert before == r.value + data;
    }

    /** operator >> of all types. */
    method Get(t: Type) returns (r: Result<Value>)
      modifies this
      ensures Reads(t, old(data), r, data)
      decreases t
    {
      match t {
        case TBool => r := GetBool();
        case TNumber(width) => r := GetNumber(width);
        case TString => r := GetString();
        case TBuffer => r := GetBuffer();
        case TPair(key, value) =>
          var k := Get(key);
          if k.Err? {
            return k;
          }
          var v := Get(value);
          if v.Err? {
            return v;
          }
          r := Ok(Pair(k.value, v.value));
        case _ => r := GetItems(t);
      }
    }

    /** The containers: the size, then a loop that pushes or emplaces every element. */
    method GetItems(t: Type) returns (r: Result<Value>)
      requires IsContainer(t)
      modifies this
      ensures Reads(t, old(data), r, data)
      decreases t, 0
    {
      hide SerialFormat.ReadNumber, Insert, Shaped;
      var count := ReadNumber();
      if count.Err? {
        return Err(count.message);
      }
      ghost var bytes := data;
      var items := [];
      for i := 0 to count.value
        invariant AllShaped(t.item, items)
        invariant DecodeItems(t, count.value, bytes, []) == DecodeItems(t, count.value - i, data, items)
      {
        var item := Get(t.item);
        if item.Err? {
          return item;
        }
        items := Insert(t, items, item.value);
      }
      r := Ok(Items(items));
    }
  }

  /** What get promises: the value at the front of the data, and the data after it. */
  ghost predicate Reads(t: Type, before: seq<Byte>, r: Result<Value>, after: seq<Byte>) {
    match Decode(t, before)
    case Ok(d) => r == Ok(d.0) && after == d.1
    case Err(_) => r.Err?
  }

  /** message_serialize with _serialize_visitor. */
  method MessageSerialize(types: seq<Type>, fields: seq<Value>) returns (data: seq<Byte>)
    requires FieldsTyped(types, fields) && forall t :: t in types ==> IsType(t)
    ensures data == EncodeFields(types, fields)
  {
    var b := new BinarySerializer();
    for i := 0 to |types|
      invariant b.data == EncodeFields(types[..i], fields[..i])
    {
      hide Encode;
      assert types[..i + 1][..i] == types[..i] && fields[..i + 1][..i] == fields[..i];
      b.Put(types[i], fields[i]);
    }
    assert types[..|types|] == types && fields[..|types|] == fields;
    data := b.data;
  }

  /** message_deserialize with _deserialize_visitor: once a field fails, the others are passed over. */
  method MessageDeserialize(types: seq<Type>, d: BinaryDeserializer) returns (r: Result<seq<Value>>)
    modifies d
    ensures match DecodeFields(types, old(d.data))
            case Ok(m) => r == Ok(m.0) && d.data == m.1
            case Err(_) => r.Err?
  {
    var fields := [];
    var error: Option<string> := None;
    for i := 0 to |types|
      invariant match DecodeFields(types[..i], old(d.data))
                case Ok(m) => error == None && fields == m.0 && d.data == m.1
                case Err(_) => error.Some?
    {
      hide Decode;
      assert types[..i + 1][..i] == types[..i];
      if error.None? {
        var result := d.Get(types[i]);
        if result.Err? {
          error := Some(result.message);
        } else {
          fields := fields + [result.value];
        }
      }
    }
    assert types[..|types|] == types;
    r := if error.Some? then Err(error.value) else Ok(fields);
  }
}
