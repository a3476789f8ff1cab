/**
  JSON values inside serialized messages: operator << of kernel/vds_parser/json_object.h and
  operator >> of kernel/vds_parser/json_parser.h.
 */
module JsonTransfer {
  import opened Bytes
  import opened Numbers
  import opened JsonTree
  import opened JsonSteps
  import opened JsonRoundTrip
  import JsonParser
  import JsonWriter
  import opened SerialFormat
  import opened Serializer
  import opened Wrappers

  /** A value that can be sent. */
  ghost predicate Transferable(v: Json) {
    Printable(v) && !v.Primitive? && |JsonTree.Text(v)| < SIZE_LIMIT
  }

  function Wire(v: Json): seq<Byte>
    requires Transferable(v)
  {
    EncodeNumber(|JsonTree.Text(v)|) + JsonTree.Text(v)
  }

  /** operator <<: the text as a string. */
  method Put(s: BinarySerializer, v: Json) returns (r: Result<()>)
    requires Printable(v) && !v.Primitive? ==> |JsonTree.Text(v)| < SIZE_LIMIT
    modifies s
    ensures r.Ok? <==> Transferable(v)
    ensures r.Ok? ==> s.data == old(s.data) + Wire(v)
    ensures r.Err? ==> s.data == old(s.data)
  {
    var text := JsonWriter.Str(v);
    if text.Err? {
      return Err(text.message);
    }
    s.PutString(text.value);
    r := Ok(());
  }

  /** What operator >> makes of the data. */
  ghost function Received(data: seq<Byte>): Result<Json> {
    match Decode(TString, data)
    case Err(e) => Err(e)
    case Ok(d) => Parse(d.0.bytes)
  }

  /** operator >>: a string, parsed. */
  method Get(d: BinaryDeserializer) returns (r: Result<Json>)
    modifies d
    ensures match Received(old(d.data)) case Ok(v) => r == Ok(v) case Err(_) => r.Err?
    ensures Decode(TString, old(d.data)).Ok? ==> d.data == Decode(TString, old(d.data)).value.1
  {
    var text := d.GetString();
    if text.Err? {
      return Err(text.message);
    }
    r := JsonParser.ParseDocument(text.value.bytes);
  }

  /** A tree sent is the tree received if and only if it is in the writer's and the parser's common domain. */
  lemma TransferIff(v: Json, rest: seq<Byte>)
    requires Transferable(v)
    ensures Received(Wire(v) + rest) == Ok(v) <==> Structured(v) && Plain(v)
  {
    BytesRoundTrip(JsonTree.Text(v), rest);
    RoundTripIff(v);
  }
}
