/**
  What the erasure code of kernel/vds_data/chunk.h computes: a block is cut into groups of k
  cells, and replica n holds for every group the value at n of the polynomial whose
  coefficients are the cells, followed by the length of the last, short group.
 */
module ChunkCodec {
  import opened Arithmetic
  import opened Bytes
  import opened Galois
  import opened Vectors

  /** Bytes behind the end of the block read as zero. */
  function ByteAt(data: seq<Byte>, pos: nat): Byte {
    if pos < |data| then data[pos] else 0
  }

  /** The big-endian cell at a byte position. */
  function CellAt(w: Width, data: seq<Byte>, pos: nat): nat {
    if w == W8 then ByteAt(data, pos) else 0x100 * (ByteAt(data, pos) as int) + ByteAt(data, pos + 1)
  }

  /** The bytes the serializer appends for a cell. */
  function CellBytes(w: Width, v: nat): (s: seq<Byte>)
    requires v < Size(w)
    ensures |s| == CellSize(w)
  {
    if w == W8 then [v] else [v / 0x100, v % 0x100]
  }

  /** The first group of k cells. */
  function Group(w: Width, k: nat, data: seq<Byte>): (r: Vec)
    ensures |r| == k
  {
    seq(k, j requires 0 <= j < k => CellAt(w, data, CellSize(w) * j))
  }

  /** The bytes a full group takes. */
  function GroupSize(w: Width, k: nat): nat {
    CellSize(w) * k
  }

  function AfterGroup(w: Width, k: nat, data: seq<Byte>): seq<Byte> {
    if |data| <= GroupSize(w, k) then [] else data[GroupSize(w, k)..]
  }

  function CodeCell(w: Width, k: nat, n: nat, data: seq<Byte>): (v: nat)
    ensures v < Size(w)
  {
    DotRange(w, Powers(w, n, k), Group(w, k, data));
    Dot(w, Powers(w, n, k), Group(w, k, data))
  }

  /** The code cells of replica n, without the padding word. */
  function Body(w: Width, k: nat, n: nat, data: seq<Byte>): seq<Byte>
    requires k >= 1
    decreases |data|
  {
    if |data| == 0 then []
    else CellBytes(w, CodeCell(w, k, n, data)) + Body(w, k, n, AfterGroup(w, k, data))
  }

  function Padding(w: Width, k: nat, size: nat): nat
    requires k >= 1
  {
    size % GroupSize(w, k)
  }

  /** Whether the padding word can hold the length of the last group. */
  predicate PaddingFits(w: Width, k: nat, size: nat)
    requires k >= 1
  {
    Padding(w, k, size) <= 0xFFFF
  }

  function PaddingBytes(p: nat): (s: seq<Byte>)
    requires p <= 0xFFFF
    ensures |s| == 2
  {
    [p / 0x100, p % 0x100]
  }

  /** A whole replica. */
  function Replica(w: Width, k: nat, n: nat, data: seq<Byte>): seq<Byte>
    requires k >= 1 && PaddingFits(w, k, |data|)
  {
    Body(w, k, n, data) + PaddingBytes(Padding(w, k, |data|))
  }

  // ----- Sizes -----

  /** The number of groups of g bytes, rounded up. */
  function Groups(g: nat, size: nat): nat
    requires g >= 1
    decreases size
  {
    if size == 0 then 0
    else if size <= g then 1
    else 1 + Groups(g, size - g)
  }

  lemma {:induction false} BodyLength(w: Width, k: nat, n: nat, data: seq<Byte>)
    requires k >= 1
    ensures |Body(w, k, n, data)| == CellSize(w) * Groups(GroupSize(w, k), |data|)
    decreases |data|
  {
    hide CodeCell;
    if |data| != 0 {
      BodyLength(w, k, n, AfterGroup(w, k, data));
    }
  }

  /** How many bytes the last group lacks. */
  function Missing(g: nat, size: nat): nat
    requires g >= 1
  {
    if size % g == 0 then 0 else g - size % g
  }

  /** Only the last group may be short. */
  lemma {:induction false} GroupsSize(g: nat, size: nat)
    requires g >= 1
    ensures size + Missing(g, size) == g * Groups(g, size)
    decreases size
  {
    if size > g {
      GroupsSize(g, size - g);
      ModDrop(size, g);
      assert g * (1 + Groups(g, size - g)) == g + g * Groups(g, size - g);
    } else if 0 < size < g {
      DivMod(size, g, 0, size);
    } else {
      DivMod(size, g, if size == 0 then 0 else 1, 0);
    }
  }

  lemma ModDrop(size: nat, g: nat)
    requires g >= 1 && size >= g
    ensures size % g == (size - g) % g
  {
    var q, r := (size - g) / g, (size - g) % g;
    assert g * (q + 1) == g * q + g;
    DivMod(size, g, q + 1, r);
  }

  lemma DivDiv(x: nat, s: nat, k: nat)
    requires s in {1, 2} && k >= 1
    ensures x / s / k == x / (s * k)
  {
    if s == 2 {
      var q, r := x / 2 / k, x / 2 % k;
      assert (2 * k) * q == 2 * (k * q);
      DivMod(x, 2 * k, q, 2 * r + x % 2);
    }
  }

  /** The size formula of the assertion in chunk_generator::write. */
  lemma GroupsFormula(w: Width, k: nat, size: nat)
    requires k >= 1
    ensures Groups(GroupSize(w, k), size) == (size + GroupSize(w, k) - 1) / CellSize(w) / k
  {
    var g := GroupSize(w, k);
    GroupsSize(g, size);
    var missing := Missing(g, size);
    DivMod(size + g - 1, g, Groups(g, size), g - 1 - missing);
    DivDiv(size + g - 1, CellSize(w), k);
  }
}
