/**
  chunk_generator and chunk_restore of kernel/vds_data/chunk.h: the loops that pack cells,
  multiply them by a row of the code matrix, and append the results to a serializer.
 */
module Chunk {
  import opened Gf2Poly
  import opened Bytes
  import opened Galois
  import opened Vectors
  import opened Elimination
  import opened GfMath
  import opened ChunkCodec
  import opened AnyK
  import opened Matrix
  import opened Serializer
  import opened Wrappers

  /** The loop over offset: sizeof(cell_type) bytes, most significant first, zero behind the end. */
  method ReadCell(w: Width, data: seq<Byte>, pos: nat) returns (cell: nat)
    ensures cell == CellAt(w, data, pos) < Size(w)
  {
    cell := 0;
    for offset := 0 to CellSize(w)
      invariant cell == if offset == 0 then 0 else if offset == 1 then ByteAt(data, pos) else CellAt(w, data, pos)
    {
      cell := (0x100 * cell) % Size(w);
      if pos + offset < |data| {
        cell := cell + data[pos + offset];
      }
    }
  }

  method PutCell(w: Width, s: BinarySerializer, value: nat)
    requires value < Size(w)
    modifies s
    ensures s.data == old(s.data) + CellBytes(w, value)
  {
    if w == W8 {
      s.PutU8(value);
    } else {
      s.PutU16(value);
    }
  }

  /** One step of an accumulated sum of products. */
  lemma NextTerm(w: Width, u: Vec, v: Vec, j: nat)
    requires |u| == |v| && j < |u|
    ensures Xor(Dot(w, u[..j], v[..j]), Mul(w, u[j], v[j])) == Dot(w, u[..j + 1], v[..j + 1]) < Size(w)
  {
    hide Mul, Xor;
    DotPrefix(w, u, v, j);
    DotRange(w, u[..j + 1], v[..j + 1]);
  }

  class ChunkGenerator {
    const math: Math
    const k: nat
    const n: nat
    const multipliers: array<nat>

    ghost predicate Valid()
      reads math.log2value, math.value2log, multipliers
    {
      && math.Valid()
      && 1 <= k && n < Size(math.w)
      && multipliers != math.log2value && multipliers != math.value2log
      && multipliers[..] == Powers(math.w, n, k)
    }

    constructor (math: Math, k: nat, n: nat)
      requires math.Valid() && 1 <= k && n < Size(math.w)
      ensures Valid() && this.math == math && this.k == k && this.n == n
      ensures fresh(multipliers)
    {
      this.math, this.k, this.n := math, k, n;
      multipliers := new nat[k](_ => 0);
      new;
      GenerateMultipliers(math, multipliers, k, n);
    }

    /** The value of one group of cells. */
    method GroupValue(data: seq<Byte>, i: nat) returns (value: nat)
      requires Valid() && i <= |data|
      ensures value == CodeCell(math.w, k, n, data[i..]) < Size(math.w)
    {
      hide TablesHold, Mul, Xor, Powers, CellAt;
      var w := math.w;
      ghost var u, v := multipliers[..], Group(w, k, data[i..]);
      value := 0;
      for j := 0 to k
        invariant value == Dot(w, u[..j], v[..j]) < Size(w)
      {
        var dataItem := ReadCell(w, data, i + CellSize(w) * j);
        CellAtSuffix(w, data, i, CellSize(w) * j);
        MultiplierRange(w, n, k, j);
        NextTerm(w, u, v, j);
        value := math.Add(value, math.Mul(multipliers[j], dataItem));
      }
      assert u[..k] == u && v[..k] == v;
    }

    /** The loop of write over the groups of the block. */
    method WriteBody(s: BinarySerializer, data: seq<Byte>)
      requires Valid()
      modifies s
      ensures s.data == old(s.data) + Body(math.w, k, n, data)
    {
      hide TablesHold, CodeCell, Body, CellBytes, Powers;
      ghost var w := math.w;
      var i := 0;
      assert data[0..] == data;
      while i < |data|
        invariant s.data + Body(w, k, n, data[Min(i, |data|)..]) == old(s.data) + Body(w, k, n, data)
      {
        var value := GroupValue(data, i);
        BodyStep(w, k, n, data, i);
        PutCell(math.w, s, value);
        i := i + GroupSize(math.w, k);
      }
      BodyEnd(w, k, n, data);
    }

    /** write: the replica of a block, or only its body when no padding word is wanted. */
    method Write(s: BinarySerializer, data: seq<Byte>, writePadding: bool) returns (r: Result<()>)
      requires Valid()
      modifies s
      ensures r.Ok? <==> if writePadding then PaddingFits(math.w, k, |data|) else Padding(math.w, k, |data|) == 0
      ensures s.data == old(s.data) + Body(math.w, k, n, data)
                        + (if writePadding && PaddingFits(math.w, k, |data|)
                           then PaddingBytes(Padding(math.w, k, |data|)) else [])
    {
      hide TablesHold, CodeCell, Body, Powers;
      var expectedSize := ((|data| + GroupSize(math.w, k) - 1) / CellSize(math.w) / k) * CellSize(math.w);
      var start := |s.data|;
      WriteBody(s, data);
      BodyLength(math.w, k, n, data);
      GroupsFormula(math.w, k, |data|);
      assert expectedSize == |s.data| - start;

      if writePadding {
        r := WritePadding(s, |data|);
      } else {
        r := if |data| % GroupSize(math.w, k) == 0 then Ok(()) else Err("assertion");
      }
    }

    /** write_padding: the length of the last group, cast to 16 bits with a check. */
    method WritePadding(s: BinarySerializer, size: nat) returns (r: Result<()>)
      requires 1 <= k
      modifies s
      ensures r.Ok? <==> PaddingFits(math.w, k, size)
      ensures s.data == old(s.data)
                        + (if PaddingFits(math.w, k, size) then PaddingBytes(Padding(math.w, k, size)) else [])
    {
      var padding := size % GroupSize(math.w, k);
      if padding != padding % 0x1_0000 {
        return Err("assertion");
      }
      s.PutU16(padding);
      r := Ok(());
    }
  }

  function Min(a: nat, b: nat): nat {
    if a <= b then a else b
  }

  lemma BodyStep(w: Width, k: nat, n: nat, data: seq<Byte>, i: nat)
    requires k >= 1 && i < |data|
    ensures Body(w, k, n, data[i..]) == CellBytes(w, CodeCell(w, k, n, data[i..]))
                                        + Body(w, k, n, data[Min(i + GroupSize(w, k), |data|)..])
  {
    hide CodeCell;
    assert AfterGroup(w, k, data[i..]) == data[Min(i + GroupSize(w, k), |data|)..];
  }

  lemma BodyEnd(w: Width, k: nat, n: nat, data: seq<Byte>)
    requires k >= 1
    ensures Body(w, k, n, data[|data|..]) == []
  {
  }

  lemma CellAtSuffix(w: Width, data: seq<Byte>, i: nat, pos: nat)
    requires i <= |data|
    ensures CellAt(w, data, i + pos) == CellAt(w, data[i..], pos)
  {
  }

  lemma MultiplierRange(w: Width, n: nat, k: nat, j: nat)
    requires j < k
    ensures Powers(w, n, k)[j] < Size(w)
  {
    PowRange(w, n, j);
  }

  class ChunkRestore {
    const math: Math
    const k: nat
    ghost const nodes: seq<nat>
    const multipliers: array2<nat>

    ghost predicate Valid()
      reads math.log2value, math.value2log, multipliers
    {
      && math.Valid()
      && 1 <= k == |nodes| == multipliers.Length0 == multipliers.Length1
      && Inverts(math.w, nodes, RowsOf(multipliers))
    }

    /** The decoding matrix of the given replica numbers. */
    constructor (math: Math, k: nat, n: seq<nat>)
      requires math.Valid() && 1 <= k == |n| <= MAX_K && Nodes(math.w, n)
      ensures Valid() && this.math == math && this.k == k && nodes == n
      ensures fresh(multipliers)
    {
      this.math, this.k, nodes := math, k, n;
      multipliers := new nat[k, k]((i, j) => 0);
      new;
      Invert(math, n, multipliers);
    }

    /** One decoded cell: row i of the matrix times the cells at byte `index` of all replicas. */
    method RestoreCell(chunks: seq<seq<Byte>>, index: nat, i: nat) returns (value: nat)
      requires Valid() && |chunks| == k && i < k
      requires forall j :: 0 <= j < k ==> index <= |chunks[j]|
      ensures |RowsOf(multipliers)[i]| == k
      ensures value == DecodedCell(math.w, RowsOf(multipliers)[i], FirstCells(math.w, DropBytes(chunks, index)))
                    < Size(math.w)
    {
      hide TablesHold, Mul, Xor, CellAt, OnMonomials, Unit;
      var w := math.w;
      ghost var u, v := RowsOf(multipliers)[i], FirstCells(w, DropBytes(chunks, index));
      value := 0;
      for j := 0 to k
        invariant value == Dot(w, u[..j], v[..j]) < Size(w)
      {
        var cell := ReadCell(w, chunks[j], index);
        CellAtSuffix(w, chunks[j], index, 0);
        NextTerm(w, u, v, j);
        assert multipliers[i, j] == u[j];
        value := math.Add(value, math.Mul(multipliers[i, j], cell));
      }
      assert u[..k] == u && v[..k] == v;
    }

    /** The loop over i: the cells decoded at one position, until enough bytes have been written. */
    method RestoreGroup(s: BinarySerializer, chunks: seq<seq<Byte>>, index: nat, expected: nat) returns (done: bool)
      requires Valid() && |chunks| == k && Square(RowsOf(multipliers), k)
      requires forall j :: 0 <= j < k ==> index <= |chunks[j]|
      modifies s
      ensures Square(RowsOf(multipliers), k)
      ensures var out := old(s.data) + GroupOut(math.w, RowsOf(multipliers), FirstCells(math.w, DropBytes(chunks, index)), k);
              if done then s.data <= out && expected <= |s.data| else s.data == out && |s.data| < expected
    {
      hide TablesHold, Inverts, FirstCells, DecodedCell, CellBytes;
      ghost var mult := RowsOf(multipliers);
      ghost var y := FirstCells(math.w, DropBytes(chunks, index));
      done := false;
      for i := 0 to k
        invariant Valid() && RowsOf(multipliers) == mult
        invariant s.data == old(s.data) + GroupOut(math.w, mult, y, i)
        invariant i > 0 ==> |s.data| < expected
      {
        var value := RestoreCell(chunks, index, i);
        PutCell(math.w, s, value);
        GroupOutStep(math.w, mult, y, i, k);
        if |s.data| >= expected {
          return true;
        }
      }
    }

    /** The loop over j: all replicas have one size and one trailing word. */
    static method Consistent(chunks: seq<seq<Byte>>, size: nat, padding: nat) returns (ok: bool)
      requires |chunks| >= 1 && |chunks[0]| == size >= 2 && Trailer(chunks[0]) == padding
      ensures ok <==> SameSizes(chunks, size) && SameTrailers(chunks, padding)
    {
      for j := 1 to |chunks|
        invariant forall i :: 0 <= i < j ==> |chunks[i]| == size && Trailer(chunks[i]) == padding
      {
        if size != |chunks[j]| || padding != 0x100 * (chunks[j][size - 2] as int) + chunks[j][size - 1] {
          return false;
        }
      }
      ok := true;
    }

    /** The loop over index, which stops as soon as the expected number of bytes is there. */
    method DecodeLoop(chunks: seq<seq<Byte>>, size: nat, expected: nat) returns (data: seq<Byte>, done: bool)
      requires Valid() && |chunks| == k && SameSizes(chunks, size) && size >= 2
      ensures Square(RowsOf(multipliers), k)
      ensures var all := DecodeAll(math.w, RowsOf(multipliers), chunks);
        if done then data <= all && expected <= |data| else data == all && |data| < expected
    {
      hide TablesHold, DecodeAll, FirstCells, GroupOut, OnMonomials, Unit, DropBytes;
      assert Square(RowsOf(multipliers), k);
      var s := new BinarySerializer();
      ghost var mult := RowsOf(multipliers);
      ghost var all := DecodeAll(math.w, mult, chunks);
      var index := 0;
      DropNothing(chunks);
      while index < size
        invariant index <= size
        invariant Valid() && RowsOf(multipliers) == mult
        invariant s.data + DecodeAll(math.w, mult, DropBytes(chunks, index)) == all
        invariant index > 0 ==> |s.data| < expected
      {
        if index + CellSize(math.w) > size {
          DecodeEnd(math.w, mult, chunks, index, size);
          return s.data, false;
        }
        DecodeStep(math.w, mult, chunks, index, size);
        done := RestoreGroup(s, chunks, index, expected);
        if done {
          return s.data, true;
        }
        index := index + CellSize(math.w);
      }
      DecodeEnd(math.w, mult, chunks, size, size);
      data, done := s.data, false;
    }

    method DecodeUpTo(chunks: seq<seq<Byte>>, size: nat, expected: nat) returns (r: Result<seq<Byte>>)
      requires Valid() && |chunks| == k && SameSizes(chunks, size) && size >= 2
      ensures Square(RowsOf(multipliers), k)
      ensures var all := DecodeAll(math.w, RowsOf(multipliers), chunks);
        r == if expected <= |all| then Ok(all[..expected]) else Err(DecodeError(math.w, size))
    {
      hide DecodeAll, TablesHold, OnMonomials, Unit;
      var data, done := DecodeLoop(chunks, size, expected);
      ghost var all := DecodeAll(math.w, RowsOf(multipliers), chunks);
      assert done ==> all[..expected] == data[..expected];
      r := if done then Ok(data[..expected]) else Err(DecodeError(math.w, size));
    }

    /** restore: rebuilds the block from k replicas. */
    method Restore(chunks: seq<seq<Byte>>) returns (r: Result<seq<Byte>>)
      requires Valid() && |chunks| == k
      ensures Square(RowsOf(multipliers), k)
      ensures r == Restored(math.w, RowsOf(multipliers), chunks)
    {
      hide TablesHold, DecodeAll, OnMonomials, Unit;
      assert Square(RowsOf(multipliers), k);
      var size := |chunks[0]|;
      if size < 2 {
        return Err("Padding before the begin");
      }
      var padding := 0x100 * (chunks[0][size - 2] as int) + chunks[0][size - 1];
      var ok := Consistent(chunks, size, padding);
      if !ok {
        return Err("assertion");
      }
      var expectedSize: int := (size - 2) * k;
      if padding != 0 {
        expectedSize := expectedSize - CellSize(math.w) * k;
        expectedSize := expectedSize + padding;
      }
      var expected := expectedSize % 0x1_0000_0000_0000_0000;
      r := DecodeUpTo(chunks, size, expected);
    }
  }

  lemma GroupOutStep(w: Width, mult: Rows, y: Vec, i: nat, k: nat)
    requires Square(mult, k) && |y| == k && i < k
    ensures GroupOut(w, mult, y, i + 1) == GroupOut(w, mult, y, i) + CellBytes(w, DecodedCell(w, mult[i], y))
    ensures GroupOut(w, mult, y, i + 1) <= GroupOut(w, mult, y, k)
    decreases k - i
  {
    if i + 1 < k {
      GroupOutStep(w, mult, y, i + 1, k);
    }
  }

  lemma DropNothing(chunks: seq<seq<Byte>>)
    ensures DropBytes(chunks, 0) == chunks
  {
  }

  lemma DecodeStep(w: Width, mult: Rows, chunks: seq<seq<Byte>>, index: nat, size: nat)
    requires |chunks| >= 1 && Square(mult, |chunks|) && SameSizes(chunks, size)
    requires index + CellSize(w) <= size
    ensures DecodeAll(w, mult, DropBytes(chunks, index))
         == GroupOut(w, mult, FirstCells(w, DropBytes(chunks, index)), |chunks|)
            + DecodeAll(w, mult, DropBytes(chunks, index + CellSize(w)))
  {
    hide FirstCells, GroupOut;
    assert DropBytes(DropBytes(chunks, index), CellSize(w)) == DropBytes(chunks, index + CellSize(w));
    assert |DropBytes(chunks, index)[0]| == size - index;
  }

  lemma DecodeEnd(w: Width, mult: Rows, chunks: seq<seq<Byte>>, index: nat, size: nat)
    requires |chunks| >= 1 && Square(mult, |chunks|) && SameSizes(chunks, size)
    requires index <= size < index + CellSize(w)
    ensures DecodeAll(w, mult, DropBytes(chunks, index)) == []
  {
    assert |DropBytes(chunks, index)[0]| == size - index;
  }
}
