/**
  chunk_output_async of kernel/vds_data/chunk.h: the encoder as a stream with a buffer of
  1024 groups. However the block is cut into writes, the bytes sent are those of the
  one-shot encoder.
 */
module ChunkOutput {
  import opened Arithmetic
  import opened Bytes
  import opened Galois
  import opened GfMath
  import opened ChunkCodec
  import opened Chunk
  import opened Serializer
  import opened Wrappers

  /** The stream behind the encoder: it remembers what it was sent and how often an empty write ended it. */
  class Target {
    var sent: seq<Byte>
    var ends: nat

    constructor ()
      ensures sent == [] && ends == 0
    {
      sent, ends := [], 0;
    }

    method Write(data: seq<Byte>)
      modifies this
      ensures sent == old(sent) + data
      ensures ends == old(ends) + if |data| == 0 then 1 else 0
    {
      sent := sent + data;
      ends := ends + if |data| == 0 then 1 else 0;
    }
  }

  // ----- Cutting a block at group boundaries -----

  lemma {:induction false} BodyConcat(w: Width, k: nat, n: nat, a: seq<Byte>, b: seq<Byte>)
    requires k >= 1 && |a| % GroupSize(w, k) == 0
    ensures Body(w, k, n, a + b) == Body(w, k, n, a) + Body(w, k, n, b)
    decreases |a|
  {
    hide *;
    if |a| == 0 {
      BodyOfNothing(w, k, n, a);
      assert a + b == b;
    } else {
      GroupsLeft(w, k, a);
      SameCodeCell(w, k, n, a, b);
      AfterFirst(w, k, a, b);
      BodyFirst(w, k, n, a);
      BodyFirst(w, k, n, a + b);
      BodyConcat(w, k, n, AfterGroup(w, k, a), b);
    }
  }

  lemma BodyOfNothing(w: Width, k: nat, n: nat, data: seq<Byte>)
    requires k >= 1 && |data| == 0
    ensures Body(w, k, n, data) == []
  {
  }

  /** Whole groups without the first one. */
  lemma GroupsLeft(w: Width, k: nat, data: seq<Byte>)
    requires k >= 1 && |data| >= 1 && |data| % GroupSize(w, k) == 0
    ensures |data| >= GroupSize(w, k) && |AfterGroup(w, k, data)| < |data|
    ensures |AfterGroup(w, k, data)| % GroupSize(w, k) == 0
  {
    AtLeastOneGroup(|data|, GroupSize(w, k));
    ModDrop(|data|, GroupSize(w, k));
  }

  lemma BodyFirst(w: Width, k: nat, n: nat, data: seq<Byte>)
    requires k >= 1 && |data| >= 1
    ensures Body(w, k, n, data) == CellBytes(w, CodeCell(w, k, n, data)) + Body(w, k, n, AfterGroup(w, k, data))
  {
  }

  lemma AtLeastOneGroup(size: nat, g: nat)
    requires g >= 1 && size >= 1 && size % g == 0
    ensures size >= g
  {
    if size < g {
      DivMod(size, g, 0, size);
    }
  }

  lemma SameGroup(w: Width, k: nat, a: seq<Byte>, b: seq<Byte>)
    requires |a| >= GroupSize(w, k)
    ensures Group(w, k, a + b) == Group(w, k, a)
  {
    forall j | 0 <= j < k ensures CellAt(w, a + b, CellSize(w) * j) == CellAt(w, a, CellSize(w) * j) {
    }
  }

  lemma SameCodeCell(w: Width, k: nat, n: nat, a: seq<Byte>, b: seq<Byte>)
    requires |a| >= GroupSize(w, k)
    ensures CodeCell(w, k, n, a + b) == CodeCell(w, k, n, a)
  {
    SameGroup(w, k, a, b);
  }

  lemma AfterFirst(w: Width, k: nat, a: seq<Byte>, b: seq<Byte>)
    requires k >= 1 && |a| >= GroupSize(w, k)
    ensures AfterGroup(w, k, a + b) == AfterGroup(w, k, a) + b
  {
  }

  lemma {:induction false} WholeBlocks(g: nat, size: nat, count: nat)
    requires g >= 1 && size % g == 0
    ensures (size + count * g) % g == 0
  {
    var q := size / g;
    assert (q + count) * g == q * g + count * g;
    DivMod(size + count * g, g, q + count, 0);
  }

  /** The last group is as short in the buffer as in the whole block. */
  lemma SamePadding(g: nat, whole: nat, rest: nat)
    requires g >= 1 && whole % g == 0
    ensures (whole + rest) % g == rest % g
  {
    var q, r := rest / g, rest % g;
    assert g * (whole / g + q) == g * (whole / g) + g * q;
    DivMod(whole + rest, g, whole / g + q, r);
  }

  /** memcpy. */
  method CopyInto(buffer: array<Byte>, start: nat, piece: seq<Byte>)
    requires start + |piece| <= buffer.Length
    modifies buffer
    ensures buffer[..start] == old(buffer[..start])
    ensures buffer[..start + |piece|] == old(buffer[..start]) + piece
  {
    for i := 0 to |piece|
      invariant buffer[..start + i] == old(buffer[..start]) + piece[..i]
    {
      buffer[start + i] := piece[i];
      assert buffer[..start + i + 1] == buffer[..start + i] + [piece[i]];
    }
  }

  const BUFFERED_GROUPS: nat := 1024

  class ChunkOutputAsync {
    const generator: ChunkGenerator
    const target: Target
    const buffer: array<Byte>
    var size: nat
    var bufferPosition: nat
    /** Everything written so far. */
    ghost var received: seq<Byte>

    /** What has been sent is the code of all whole buffers; the rest of the block is buffered. */
    ghost predicate Buffering()
      reads this, target, buffer
      reads generator.math.log2value, generator.math.value2log, generator.multipliers
    {
      var w, k := generator.math.w, generator.k;
      var flushed: int := |received| - bufferPosition;
      && generator.Valid()
      && Separate()
      && buffer.Length == BUFFERED_GROUPS * GroupSize(w, k)
      && bufferPosition <= buffer.Length
      && 0 <= flushed && flushed % GroupSize(w, k) == 0
      && buffer[..bufferPosition] == received[flushed..]
      && target.sent == Body(w, k, generator.n, received[..flushed])
    }

    ghost predicate Valid()
      reads this, target, buffer
      reads generator.math.log2value, generator.math.value2log, generator.multipliers
    {
      Buffering() && bufferPosition < buffer.Length && size == |received|
    }

    /** The buffer is not one of the tables. */
    ghost predicate Separate() {
      && buffer as object != generator.math.log2value && buffer as object != generator.math.value2log
      && buffer as object != generator.multipliers
    }

    constructor (generator: ChunkGenerator, target: Target)
      requires generator.Valid() && target.sent == []
      ensures Valid() && received == []
      ensures this.generator == generator && this.target == target && fresh(buffer)
    {
      this.generator, this.target := generator, target;
      buffer := new Byte[BUFFERED_GROUPS * GroupSize(generator.math.w, generator.k)](_ => 0);
      size, bufferPosition := 0, 0;
      received := [];
    }

    /** Copies bytes behind those already buffered. */
    method Append(piece: seq<Byte>)
      requires Buffering() && bufferPosition + |piece| <= buffer.Length
      modifies this, buffer
      ensures Buffering()
      ensures bufferPosition == old(bufferPosition) + |piece|
      ensures received == old(received) + piece && size == old(size)
    {
      hide TablesHold, Body, GroupSize;
      var start := bufferPosition;
      ghost var kept := buffer[..start];
      ghost var flushed := |received| - start;
      CopyInto(buffer, start, piece);
      bufferPosition := start + |piece|;
      received := received + piece;
      assert buffer[..bufferPosition] == kept + piece;
      assert received[flushed..] == old(received)[flushed..] + piece;
      assert received[..flushed] == old(received)[..flushed];
    }

    /** Sends the code of a full buffer, without padding. */
    method Flush()
      requires Buffering() && bufferPosition == buffer.Length
      modifies this, target
      ensures Buffering() && bufferPosition == 0
      ensures received == old(received) && size == old(size) && target.ends == old(target.ends)
    {
      hide TablesHold, Body;
      ghost var w, k, n, g := generator.math.w, generator.k, generator.n, GroupSize(generator.math.w, generator.k);
      ghost var flushed := |received| - bufferPosition;
      var s := new BinarySerializer();
      WholeBlocks(g, 0, BUFFERED_GROUPS);
      WholeBlocks(g, flushed, BUFFERED_GROUPS);
      var r := generator.Write(s, buffer[..bufferPosition], false);
      assert r.Ok?;
      BodyConcat(w, k, n, received[..flushed], received[flushed..]);
      assert received[..flushed] + received[flushed..] == received;
      BodyNotEmpty(w, k, n, buffer[..bufferPosition]);
      target.Write(s.data);
      bufferPosition := 0;
      assert received[..|received|] == received;
    }

    /** One write of the stream; an empty one finishes it. */
    method WriteAsync(data: seq<Byte>) returns (r: Result<()>)
      requires Valid() && target.ends == 0
      modifies this, buffer, target
      ensures received == old(received) + data
      ensures |data| != 0 ==> Valid() && r.Ok? && target.ends == 0
      ensures |data| == 0 ==>
                var w, k := generator.math.w, generator.k;
                && (r.Ok? <==> PaddingFits(w, k, |received|))
                && (r.Ok? ==> target.sent == Replica(w, k, generator.n, received) && target.ends == 1)
                && (r.Err? ==> target.sent == old(target.sent) && target.ends == 0)
    {
      hide TablesHold, Body, Padding;
      if |data| != 0 {
        size := size + |data|;
        var position := 0;
        while position < |data|
          invariant position <= |data|
          invariant Buffering() && bufferPosition < buffer.Length && size == old(size) + |data| && target.ends == 0
          invariant received == old(received) + data[..position]
        {
          var l := |data| - position;
          if l > buffer.Length - bufferPosition {
            l := buffer.Length - bufferPosition;
          }
          Append(data[position..position + l]);
          assert data[..position + l] == data[..position] + data[position..position + l];
          position := position + l;
          if bufferPosition == buffer.Length {
            Flush();
          }
        }
        r := Ok(());
      } else {
        r := Finish();
      }
    }

    /** The end of the stream: the last groups, if any are buffered, and the padding word. */
    method Finish() returns (r: Result<()>)
      requires Valid() && target.ends == 0
      modifies target
      ensures var w, k := generator.math.w, generator.k;
                && (r.Ok? <==> PaddingFits(w, k, |received|))
                && (r.Ok? ==> target.sent == Replica(w, k, generator.n, received) && target.ends == 1)
                && (r.Err? ==> target.sent == old(target.sent) && target.ends == 0)
    {
      hide TablesHold, Body, CodeCell;
      ghost var w, k, n, g := generator.math.w, generator.k, generator.n, GroupSize(generator.math.w, generator.k);
      ghost var flushed := |received| - bufferPosition;
      SamePadding(g, flushed, bufferPosition);
      BodyConcat(w, k, n, received[..flushed], received[flushed..]);
      assert received[..flushed] + received[flushed..] == received;
      var s := new BinarySerializer();
      if bufferPosition != 0 {
        r := generator.Write(s, buffer[..bufferPosition], true);
      } else {
        BodyEnd(w, k, n, received);
        r := generator.WritePadding(s, size);
      }
      if r.Ok? {
        target.Write(s.data);
        target.Write([]);
      }
    }
  }

  lemma BodyNotEmpty(w: Width, k: nat, n: nat, data: seq<Byte>)
    requires k >= 1 && |data| >= 1
    ensures |Body(w, k, n, data)| >= 1
  {
    hide CodeCell;
  }
}
