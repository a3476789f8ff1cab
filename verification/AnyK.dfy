/**
  The purpose of the erasure code: any k replicas with different numbers give the block back,
  byte for byte and with its exact length.
 */
module AnyK {
  import opened Bytes
  import opened Galois
  import opened Vectors
  import opened Elimination
  import opened ChunkCodec
  import opened Wrappers

  /** The rows of mult invert the Vandermonde matrix of the nodes: mult * V = I. */
  ghost predicate Inverts(w: Width, nodes: Vec, mult: Rows) {
    && |mult| == |nodes|
    && forall r :: 0 <= r < |mult| ==>
         |mult[r]| == |nodes| && InRange(w, mult[r]) && OnMonomials(w, mult[r], nodes, |nodes|) == Unit(|nodes|, r)
  }

  ghost predicate Square(mult: Rows, k: nat) {
    |mult| == k && forall r :: 0 <= r < k ==> |mult[r]| == k
  }

  // ----- What chunk_restore::restore computes -----

  function DecodedCell(w: Width, u: Vec, y: Vec): (v: nat)
    requires |u| == |y|
    ensures v < Size(w)
  {
    DotRange(w, u, y);
    Dot(w, u, y)
  }

  /** The bytes of the first i cells decoded from one position of all replicas. */
  function GroupOut(w: Width, mult: Rows, y: Vec, i: nat): (s: seq<Byte>)
    requires Square(mult, |y|) && i <= |y|
    ensures |s| == CellSize(w) * i
  {
    if i == 0 then [] else GroupOut(w, mult, y, i - 1) + CellBytes(w, DecodedCell(w, mult[i - 1], y))
  }

  function FirstCells(w: Width, chunks: seq<seq<Byte>>): (y: Vec)
    ensures |y| == |chunks|
  {
    seq(|chunks|, j requires 0 <= j < |chunks| => CellAt(w, chunks[j], 0))
  }

  function DropBytes(chunks: seq<seq<Byte>>, n: nat): (r: seq<seq<Byte>>)
    ensures |r| == |chunks|
  {
    seq(|chunks|, j requires 0 <= j < |chunks| => if n <= |chunks[j]| then chunks[j][n..] else [])
  }

  /** Everything that can be decoded from the replicas, trailer included. */
  function DecodeAll(w: Width, mult: Rows, chunks: seq<seq<Byte>>): seq<Byte>
    requires |chunks| >= 1 && Square(mult, |chunks|)
    decreases |chunks[0]|
  {
    if |chunks[0]| < CellSize(w) then []
    else GroupOut(w, mult, FirstCells(w, chunks), |chunks|) + DecodeAll(w, mult, DropBytes(chunks, CellSize(w)))
  }

  /** The 16-bit word at the end of a replica. */
  function Trailer(chunk: seq<Byte>): nat
    requires |chunk| >= 2
  {
    0x100 * (chunk[|chunk| - 2] as int) + chunk[|chunk| - 1]
  }

  /** The length of the block, in size_t arithmetic. */
  function ExpectedSize(w: Width, k: nat, size: nat, padding: nat): nat
    requires size >= 2
  {
    var whole: int := (size - 2) * k;
    (if padding == 0 then whole else whole - GroupSize(w, k) + padding) % 0x1_0000_0000_0000_0000
  }

  ghost predicate SameSizes(chunks: seq<seq<Byte>>, size: nat) {
    forall j :: 0 <= j < |chunks| ==> |chunks[j]| == size
  }

  ghost predicate SameTrailers(chunks: seq<seq<Byte>>, padding: nat) {
    forall j :: 0 <= j < |chunks| ==> |chunks[j]| >= 2 && Trailer(chunks[j]) == padding
  }

  /** The end of the replicas is reached first; behind half a cell the source reads past it. */
  function DecodeError(w: Width, size: nat): string {
    if size % CellSize(w) == 0 then "Fatal error at chunk_restore::restore" else "Cell past the end"
  }

  /** The result of restore on arbitrary replicas; without a padding word the source reads before their begin. */
  ghost function Restored(w: Width, mult: Rows, chunks: seq<seq<Byte>>): Result<seq<Byte>>
    requires |chunks| >= 1 && Square(mult, |chunks|)
  {
    if |chunks[0]| < 2 then Err("Padding before the begin")
    else
      var size, padding := |chunks[0]|, Trailer(chunks[0]);
      if !SameSizes(chunks, size) || !SameTrailers(chunks, padding) then Err("assertion")
      else
        var expected, out := ExpectedSize(w, |chunks|, size, padding), DecodeAll(w, mult, chunks);
        if expected <= |out| then Ok(out[..expected]) else Err(DecodeError(w, size))
  }

  lemma {:induction false} DecodeAllSize(w: Width, mult: Rows, chunks: seq<seq<Byte>>, size: nat)
    requires |chunks| >= 1 && Square(mult, |chunks|) && |chunks[0]| == size
    ensures |DecodeAll(w, mult, chunks)| == (size / CellSize(w)) * GroupSize(w, |chunks|)
    decreases size
  {
    hide GroupOut, FirstCells;
    var n := |chunks|;
    if size >= CellSize(w) {
      var rest := DropBytes(chunks, CellSize(w));
      DecodeAllSize(w, mult, rest, size - CellSize(w));
      assert size / CellSize(w) == (size - CellSize(w)) / CellSize(w) + 1;
      OneMore((size - CellSize(w)) / CellSize(w), GroupSize(w, n));
    }
  }

  lemma OneMore(q: nat, g: nat)
    ensures (q + 1) * g == q * g + g
  {
  }

  /**
    Which replicas restore accepts: all of one size, which is at least two bytes, with the same
    last two bytes, and enough cells for the size they announce.
   */
  lemma RestoredIff(w: Width, mult: Rows, chunks: seq<seq<Byte>>)
    requires |chunks| >= 1 && Square(mult, |chunks|)
    ensures var k, size := |chunks|, |chunks[0]|;
      Restored(w, mult, chunks).Ok? <==>
        && size >= 2
        && (forall j :: 0 <= j < k ==> |chunks[j]| == size && chunks[j][size - 2..] == chunks[0][size - 2..])
        && ExpectedSize(w, k, size, Trailer(chunks[0])) <= (size / CellSize(w)) * GroupSize(w, k)
    ensures Restored(w, mult, chunks).Ok? ==>
      |chunks[0]| >= 2 && |Restored(w, mult, chunks).value| == ExpectedSize(w, |chunks|, |chunks[0]|, Trailer(chunks[0]))
  {
    DecodeAllSize(w, mult, chunks, |chunks[0]|);
    hide DecodeAll, ExpectedSize;
    if |chunks[0]| >= 2 && SameSizes(chunks, |chunks[0]|) {
      forall j | 0 <= j < |chunks|
        ensures Trailer(chunks[j]) == Trailer(chunks[0]) <==> chunks[j][|chunks[0]| - 2..] == chunks[0][|chunks[0]| - 2..]
      {
        SameWord(chunks[j], chunks[0]);
      }
    }
  }

  lemma SameWord(a: seq<Byte>, b: seq<Byte>)
    requires |a| == |b| >= 2
    ensures Trailer(a) == Trailer(b) <==> a[|a| - 2..] == b[|b| - 2..]
  {
    var n := |a| - 2;
    assert a[n..] == [a[n], a[n + 1]] && b[n..] == [b[n], b[n + 1]];
  }

  // ----- One group -----

  lemma GroupRange(w: Width, k: nat, data: seq<Byte>)
    ensures InRange(w, Group(w, k, data))
  {
  }

  /** A cell written and read back. */
  lemma CellRoundTrip(w: Width, data: seq<Byte>, pos: nat)
    ensures CellAt(w, data, pos) < Size(w)
    ensures CellBytes(w, CellAt(w, data, pos))
         == if w == W8 then [ByteAt(data, pos)] else [ByteAt(data, pos), ByteAt(data, pos + 1)]
  {
  }

  lemma CellBytesRead(w: Width, v: nat, tail: seq<Byte>)
    requires v < Size(w)
    ensures CellAt(w, CellBytes(w, v) + tail, 0) == v
  {
  }

  lemma DecodedGroupCell(w: Width, nodes: Vec, mult: Rows, data: seq<Byte>, i: nat)
    requires Inverts(w, nodes, mult) && i < |nodes|
    ensures DecodedCell(w, mult[i], Evals(w, nodes, Group(w, |nodes|, data))) == CellAt(w, data, CellSize(w) * i)
  {
    hide Dot, Evals, OnMonomials, Unit, CellAt;
    GroupRange(w, |nodes|, data);
    Decodes(w, mult[i], nodes, Group(w, |nodes|, data), i);
  }

  /** Decoding the code cells of a group gives the bytes of the group back. */
  lemma {:induction false} GroupDecodes(w: Width, nodes: Vec, mult: Rows, data: seq<Byte>, i: nat)
    requires Inverts(w, nodes, mult) && i <= |nodes|
    ensures var out := GroupOut(w, mult, Evals(w, nodes, Group(w, |nodes|, data)), i);
            forall p :: 0 <= p < |out| ==> out[p] == ByteAt(data, p)
  {
    hide DecodedCell, Evals, Group, OnMonomials, Unit, CellAt, CellBytes, ByteAt;
    if i != 0 {
      GroupDecodes(w, nodes, mult, data, i - 1);
      DecodedGroupCell(w, nodes, mult, data, i - 1);
      CellRoundTrip(w, data, CellSize(w) * (i - 1));
      var y := Evals(w, nodes, Group(w, |nodes|, data));
      AppendCell(w, data, GroupOut(w, mult, y, i - 1), CellBytes(w, CellAt(w, data, CellSize(w) * (i - 1))), i - 1);
    }
  }

  lemma AppendCell(w: Width, data: seq<Byte>, out: seq<Byte>, cell: seq<Byte>, i: nat)
    requires |out| == CellSize(w) * i && forall p :: 0 <= p < |out| ==> out[p] == ByteAt(data, p)
    requires cell == if w == W8 then [ByteAt(data, |out|)] else [ByteAt(data, |out|), ByteAt(data, |out| + 1)]
    ensures forall p :: 0 <= p < |out + cell| ==> (out + cell)[p] == ByteAt(data, p)
  {
    hide ByteAt;
  }

  // ----- All groups -----

  /** A replica of number n without its trailer, followed by a tail. */
  ghost predicate BodyThenTail(w: Width, k: nat, n: nat, data: seq<Byte>, chunk: seq<Byte>, tail: nat)
    requires k >= 1
  {
    var body := Body(w, k, n, data);
    |chunk| == |body| + tail && chunk[..|body|] == body
  }

  ghost predicate Encodes(w: Width, nodes: Vec, data: seq<Byte>, chunks: seq<seq<Byte>>, tail: nat)
    requires |nodes| >= 1
  {
    && |chunks| == |nodes|
    && forall j :: 0 <= j < |chunks| ==> BodyThenTail(w, |nodes|, nodes[j], data, chunks[j], tail)
  }

  /** The first cell of a replica is the code cell of the first group; the rest encodes the rest. */
  lemma FirstCellOf(w: Width, k: nat, n: nat, data: seq<Byte>, chunk: seq<Byte>, tail: nat)
    requires k >= 1 && |data| >= 1 && BodyThenTail(w, k, n, data, chunk, tail)
    ensures |chunk| >= CellSize(w) && CellAt(w, chunk, 0) == CodeCell(w, k, n, data)
    ensures BodyThenTail(w, k, n, AfterGroup(w, k, data), chunk[CellSize(w)..], tail)
  {
    hide CodeCell, AfterGroup, CellAt, CellBytes;
    var s := CellSize(w);
    var v, body := CodeCell(w, k, n, data), Body(w, k, n, AfterGroup(w, k, data));
    assert Body(w, k, n, data) == CellBytes(w, v) + body;
    assert chunk[..s] == CellBytes(w, v);
    assert chunk == CellBytes(w, v) + chunk[s..];
    CellBytesRead(w, v, chunk[s..]);
    assert chunk[s..][..|body|] == body;
  }

  lemma EncodesCells(w: Width, nodes: Vec, data: seq<Byte>, chunks: seq<seq<Byte>>, tail: nat)
    requires |nodes| >= 1 && |data| >= 1 && Encodes(w, nodes, data, chunks, tail)
    ensures FirstCells(w, chunks) == Evals(w, nodes, Group(w, |nodes|, data))
    ensures Encodes(w, nodes, AfterGroup(w, |nodes|, data), DropBytes(chunks, CellSize(w)), tail)
    ensures |chunks[0]| >= CellSize(w)
  {
    hide CellAt, Dot, Group, Powers, AfterGroup, BodyThenTail;
    var k := |nodes|;
    forall j | 0 <= j < k
      ensures |chunks[j]| >= CellSize(w)
      ensures FirstCells(w, chunks)[j] == Evals(w, nodes, Group(w, k, data))[j]
      ensures BodyThenTail(w, k, nodes[j], AfterGroup(w, k, data), DropBytes(chunks, CellSize(w))[j], tail)
    {
      FirstCellOf(w, k, nodes[j], data, chunks[j], tail);
    }
    assert |chunks[0]| >= CellSize(w);
  }

  lemma {:induction false} DecodesAll(w: Width, nodes: Vec, mult: Rows, data: seq<Byte>, chunks: seq<seq<Byte>>, tail: nat)
    requires |nodes| >= 1 && Inverts(w, nodes, mult) && Encodes(w, nodes, data, chunks, tail)
    ensures data <= DecodeAll(w, mult, chunks)
    decreases |data|
  {
    if |data| != 0 {
      var k := |nodes|;
      var rest, drop := AfterGroup(w, k, data), DropBytes(chunks, CellSize(w));
      EncodesCells(w, nodes, data, chunks, tail);
      hide Group, Evals, FirstCells, DropBytes, Encodes, Inverts;
      GroupDecodes(w, nodes, mult, data, k);
      DecodesAll(w, nodes, mult, rest, drop, tail);
      JoinGroup(w, k, data, GroupOut(w, mult, FirstCells(w, chunks), k), DecodeAll(w, mult, drop));
    }
  }

  lemma JoinGroup(w: Width, k: nat, data: seq<Byte>, out: seq<Byte>, more: seq<Byte>)
    requires |out| == GroupSize(w, k) && forall p :: 0 <= p < |out| ==> out[p] == ByteAt(data, p)
    requires AfterGroup(w, k, data) <= more
    ensures data <= out + more
  {
    var rest := AfterGroup(w, k, data);
    forall p | 0 <= p < |data| ensures p < |out + more| && (out + more)[p] == data[p] {
      if p >= |out| {
        assert rest[p - |out|] == data[p];
      }
    }
  }

  /** The length formula of restore recovers the length of the block. */
  lemma ExpectedIsSize(w: Width, k: nat, size: nat)
    requires k >= 1 && size < 0x1_0000_0000_0000_0000
    ensures ExpectedSize(w, k, CellSize(w) * Groups(GroupSize(w, k), size) + 2, Padding(w, k, size)) == size
  {
    hide Groups;
    var g := GroupSize(w, k);
    var n := Groups(g, size);
    GroupsSize(g, size);
    WholeSize(CellSize(w), n, k);
    SizeArithmetic(w, k, CellSize(w) * n, g * n, size);
  }

  lemma WholeSize(s: nat, n: nat, k: nat)
    ensures (s * n) * k == (s * k) * n
  {
  }

  lemma SizeArithmetic(w: Width, k: nat, body: nat, whole: nat, size: nat)
    requires k >= 1 && body * k == whole && size + Missing(GroupSize(w, k), size) == whole
    requires size < 0x1_0000_0000_0000_0000
    ensures ExpectedSize(w, k, body + 2, Padding(w, k, size)) == size
  {
    assert (body + 2 - 2) * k == whole;
  }

  lemma TrailerOfReplica(w: Width, k: nat, n: nat, data: seq<Byte>)
    requires k >= 1 && PaddingFits(w, k, |data|)
    ensures |Replica(w, k, n, data)| >= 2
    ensures Trailer(Replica(w, k, n, data)) == Padding(w, k, |data|)
  {
  }

  function Replicas(w: Width, nodes: Vec, data: seq<Byte>): (r: seq<seq<Byte>>)
    requires |nodes| >= 1 && PaddingFits(w, |nodes|, |data|)
    ensures |r| == |nodes|
  {
    seq(|nodes|, j requires 0 <= j < |nodes| => Replica(w, |nodes|, nodes[j], data))
  }

  /**
    Any-k recovery: whatever the block, however many replicas k, and whichever k different
    numbers in whichever order, the decoding matrix of those numbers restores the block.
   */
  lemma AnyKRestores(w: Width, nodes: Vec, mult: Rows, data: seq<Byte>)
    requires |nodes| >= 1 && Inverts(w, nodes, mult)
    requires |data| < 0x1_0000_0000_0000_0000 && PaddingFits(w, |nodes|, |data|)
    ensures Restored(w, mult, Replicas(w, nodes, data)) == Ok(data)
  {
    hide Padding, BodyThenTail, Replica, ExpectedSize, DecodeAll;
    var k := |nodes|;
    var chunks := Replicas(w, nodes, data);
    var size := CellSize(w) * Groups(GroupSize(w, k), |data|) + 2;
    forall j | 0 <= j < k
      ensures |chunks[j]| == size && Trailer(chunks[j]) == Padding(w, k, |data|)
      ensures BodyThenTail(w, k, nodes[j], data, chunks[j], 2)
    {
      ReplicaShape(w, k, nodes[j], data);
    }
    DecodesAll(w, nodes, mult, data, chunks, 2);
    ExpectedIsSize(w, k, |data|);
    assert SameSizes(chunks, size) && SameTrailers(chunks, Padding(w, k, |data|));
    assert |chunks[0]| == size && Trailer(chunks[0]) == Padding(w, k, |data|);
    assert DecodeAll(w, mult, chunks)[..|data|] == data;
  }

  lemma ReplicaShape(w: Width, k: nat, n: nat, data: seq<Byte>)
    requires k >= 1 && PaddingFits(w, k, |data|)
    ensures |Replica(w, k, n, data)| == CellSize(w) * Groups(GroupSize(w, k), |data|) + 2
    ensures Trailer(Replica(w, k, n, data)) == Padding(w, k, |data|)
    ensures BodyThenTail(w, k, n, data, Replica(w, k, n, data), 2)
  {
    hide Groups, Padding;
    BodyLength(w, k, n, data);
    TrailerOfReplica(w, k, n, data);
    assert Replica(w, k, n, data)[..|Body(w, k, n, data)|] == Body(w, k, n, data);
  }
}
