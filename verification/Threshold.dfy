/**
  Why k replicas are needed: fewer leave the coefficients of a polynomial open that vanishes at
  all their numbers, so they determine a block only when it has no more cells than they are.
 */
module Threshold {
  import opened Gf2Poly
  import opened Bytes
  import opened Galois
  import opened Vectors
  import opened Elimination
  import opened ChunkCodec
  import opened AnyK

  // ----- Trailing and leading zeros -----

  function Zeros(n: nat): (r: Vec)
    ensures |r| == n && forall i :: 0 <= i < n ==> r[i] == 0
  {
    seq(n, i => 0)
  }

  /** Cells that are zero do not count. */
  lemma {:induction false} DotZeroTail(w: Width, x: nat, v: Vec, n: nat)
    ensures Dot(w, Powers(w, x, |v| + n), v + Zeros(n)) == Dot(w, Powers(w, x, |v|), v)
    decreases n
  {
    hide *;
    if n == 0 {
      assert v + Zeros(0) == v;
    } else {
      DotZeroTail(w, x, v, n - 1);
      assert v + Zeros(n) == (v + Zeros(n - 1)) + [0];
      DotSnoc(w, x, v + Zeros(n - 1), 0);
      MulZero(w, Pow(w, x, |v| + n - 1));
      XorZero(Dot(w, Powers(w, x, |v|), v));
    }
  }

  /** Multiplying a polynomial by x moves its coefficients up. */
  lemma {:induction false} DotShift(w: Width, x: nat, v: Vec)
    ensures Dot(w, Powers(w, x, |v| + 1), [0] + v) == Mul(w, Dot(w, Powers(w, x, |v|), v), x)
    decreases |v|
  {
    hide *;
    var n := |v|;
    if n == 0 {
      NothingShifted(w, x);
      assert v == [] && [0] + v == [0];
    } else {
      var before, a := v[..n - 1], v[n - 1];
      assert v == before + [a] && [0] + v == ([0] + before) + [a];
      DotShift(w, x, before);
      DotSnoc(w, x, before, a);
      DotSnoc(w, x, [0] + before, a);
      PowNext(w, x, n - 1);
      ShiftStep(w, Dot(w, Powers(w, x, n - 1), before), Pow(w, x, n - 1), x, a);
    }
  }

  lemma NothingShifted(w: Width, x: nat)
    ensures Dot(w, Powers(w, x, 1), [0]) == 0 == Mul(w, Dot(w, Powers(w, x, 0), []), x)
  {
    hide Mul, Xor, Pow;
    MulZero(w, x);
    MulZero(w, Pow(w, x, 0));
    XorZero(0);
    assert Powers(w, x, 1)[..0] == [] && [0][..0] == [];
  }

  lemma PowNext(w: Width, x: nat, e: nat)
    ensures Pow(w, x, e + 1) == Mul(w, Pow(w, x, e), x)
  {
  }

  /** The value of a polynomial with one coefficient more. */
  lemma DotSnoc(w: Width, x: nat, v: Vec, a: nat)
    ensures Dot(w, Powers(w, x, |v| + 1), v + [a]) == Xor(Dot(w, Powers(w, x, |v|), v), Mul(w, Pow(w, x, |v|), a))
  {
    hide Mul, Xor, Pow;
    assert Powers(w, x, |v| + 1)[..|v|] == Powers(w, x, |v|) && (v + [a])[..|v|] == v;
  }

  /** d * x + (p * x) * a == (d + p * a) * x. */
  lemma ShiftStep(w: Width, d: nat, p: nat, x: nat, a: nat)
    ensures Xor(Mul(w, d, x), Mul(w, Mul(w, p, x), a)) == Mul(w, Xor(d, Mul(w, p, a)), x)
  {
    hide Mul, Xor;
    MulAssoc(w, p, x, a);
    MulComm(w, x, a);
    MulAssoc(w, p, a, x);
    MulComm(w, Xor(d, Mul(w, p, a)), x);
    MulXor(w, x, d, Mul(w, p, a));
    MulComm(w, x, d);
    MulComm(w, x, Mul(w, p, a));
  }

  // ----- The polynomial that vanishes at the given numbers -----

  /** The coefficients of (x - n0) (x - n1) .., the constant one first. */
  function RootCoefficients(w: Width, nodes: Vec, j: nat): (r: Vec)
    requires j <= |nodes|
    ensures |r| == j + 1
  {
    if j == 0 then [1]
    else
      var before := RootCoefficients(w, nodes, j - 1);
      Add([0] + before, Scale(w, nodes[j - 1], before + [0]))
  }

  lemma {:induction false} RootCoefficientsRange(w: Width, nodes: Vec, j: nat)
    requires j <= |nodes|
    ensures InRange(w, RootCoefficients(w, nodes, j)) && RootCoefficients(w, nodes, j)[j] == 1
  {
    hide Mul, Xor;
    if j > 0 {
      var before := RootCoefficients(w, nodes, j - 1);
      RootCoefficientsRange(w, nodes, j - 1);
      forall i | 0 <= i <= j ensures RootCoefficients(w, nodes, j)[i] < Size(w) {
        MulRange(w, nodes[j - 1], (before + [0])[i]);
        XorRange(w, ([0] + before)[i], Mul(w, nodes[j - 1], (before + [0])[i]));
      }
      MulZero(w, nodes[j - 1]);
      XorZero(1);
    }
  }

  lemma {:induction false} RootCoefficientsValue(w: Width, nodes: Vec, x: nat, j: nat)
    requires j <= |nodes|
    ensures Dot(w, Powers(w, x, j + 1), RootCoefficients(w, nodes, j)) == Roots(w, nodes, x, j)
  {
    hide *;
    RootsAre(w, nodes, x, j);
    if j == 0 {
      ConstantOne(w, x);
    } else {
      var before, n := RootCoefficients(w, nodes, j - 1), nodes[j - 1];
      var value, u := Dot(w, Powers(w, x, j), before), Powers(w, x, j + 1);
      RootCoefficientsValue(w, nodes, x, j - 1);
      DotAdd(w, u, [0] + before, Scale(w, n, before + [0]));
      DotScale(w, u, n, before + [0]);
      DotShift(w, x, before);
      assert Zeros(1) == [0];
      DotZeroTail(w, x, before, 1);
      MulComm(w, n, value);
      MulXor(w, value, x, n);
    }
  }

  lemma ConstantOne(w: Width, x: nat)
    ensures Dot(w, Powers(w, x, 1), [1]) == 1
  {
    hide Mul, Xor;
    MulOne(w, 1);
    XorZero(1);
    assert Powers(w, x, 1) == [1] && [1][..0] == [];
  }

  /** One linear factor more, in the coefficients and in the value. */
  lemma RootsAre(w: Width, nodes: Vec, x: nat, j: nat)
    requires j <= |nodes|
    ensures j == 0 ==> RootCoefficients(w, nodes, j) == [1] && Roots(w, nodes, x, j) == 1
    ensures j > 0 ==> var before, n := RootCoefficients(w, nodes, j - 1), nodes[j - 1];
              && RootCoefficients(w, nodes, j) == Add([0] + before, Scale(w, n, before + [0]))
              && Roots(w, nodes, x, j) == Mul(w, Roots(w, nodes, x, j - 1), Xor(x, n))
  {
  }

  // ----- A block with the same replicas -----

  /** The bytes of cells, one after the other. */
  ghost function CellsBytes(w: Width, cells: Vec): (s: seq<Byte>)
    requires InRange(w, cells)
    ensures |s| == CellSize(w) * |cells|
  {
    if |cells| == 0 then []
    else CellsBytes(w, cells[..|cells| - 1]) + CellBytes(w, cells[|cells| - 1])
  }

  lemma {:induction false} CellsBytesRead(w: Width, cells: Vec, tail: seq<Byte>, i: nat)
    requires InRange(w, cells) && i < |cells|
    ensures CellAt(w, CellsBytes(w, cells) + tail, CellSize(w) * i) == cells[i]
    decreases |cells|
  {
    hide CellBytes, CellAt;
    var n := |cells| - 1;
    var before, last := CellsBytes(w, cells[..n]), CellBytes(w, cells[n]);
    assert CellsBytes(w, cells) + tail == before + (last + tail);
    if i == n {
      CellBytesRead(w, cells[n], tail);
      CellBehind(w, before, last + tail, 0);
    } else {
      CellsBytesRead(w, cells[..n], last + tail, i);
    }
  }

  lemma CellBehind(w: Width, before: seq<Byte>, s: seq<Byte>, pos: nat)
    ensures CellAt(w, before + s, |before| + pos) == CellAt(w, s, pos)
  {
  }

  /** The one of a cell's first byte. */
  function TopOne(w: Width): nat {
    if w == W8 then 1 else 0x100
  }

  /** The k cells of a multiple of the root polynomial. */
  function RootCells(w: Width, nodes: Vec, k: nat): (r: Vec)
    requires |nodes| < k
    ensures |r| == k
  {
    Scale(w, TopOne(w), RootCoefficients(w, nodes, |nodes|)) + Zeros(k - |nodes| - 1)
  }

  lemma RootCellsVanish(w: Width, nodes: Vec, k: nat, t: nat)
    requires t < |nodes| < k
    ensures Dot(w, Powers(w, nodes[t], k), RootCells(w, nodes, k)) == 0
  {
    hide *;
    RootCellsValue(w, nodes, k, nodes[t]);
    RootsVanish(w, nodes, t, |nodes|);
    MulZero(w, TopOne(w));
  }

  lemma RootCellsValue(w: Width, nodes: Vec, k: nat, x: nat)
    requires |nodes| < k
    ensures Dot(w, Powers(w, x, k), RootCells(w, nodes, k)) == Mul(w, TopOne(w), Roots(w, nodes, x, |nodes|))
  {
    hide *;
    var m := |nodes|;
    var roots := RootCoefficients(w, nodes, m);
    RootCellsAre(w, nodes, k);
    DotZeroTail(w, x, Scale(w, TopOne(w), roots), k - m - 1);
    DotScale(w, Powers(w, x, m + 1), TopOne(w), roots);
    RootCoefficientsValue(w, nodes, x, m);
  }

  lemma RootCellsAre(w: Width, nodes: Vec, k: nat)
    requires |nodes| < k
    ensures RootCells(w, nodes, k)
         == Scale(w, TopOne(w), RootCoefficients(w, nodes, |nodes|)) + Zeros(k - |nodes| - 1)
  {
  }

  lemma RootCellsEnd(w: Width, nodes: Vec, k: nat)
    requires |nodes| < k
    ensures InRange(w, RootCells(w, nodes, k)) && RootCells(w, nodes, k)[|nodes|] == TopOne(w)
    ensures forall i :: |nodes| < i < k ==> RootCells(w, nodes, k)[i] == 0
  {
    var m := |nodes|;
    var roots := RootCoefficients(w, nodes, m);
    hide Mul, RootCoefficients;
    RootCoefficientsRange(w, nodes, m);
    MulOne(w, TopOne(w));
    forall i | 0 <= i <= m ensures Mul(w, TopOne(w), roots[i]) < Size(w) {
      MulRange(w, TopOne(w), roots[i]);
    }
  }

  /** Flipping the last bit of a cell's first byte. */
  lemma TopByteFlipped(w: Width, s: seq<Byte>, pos: nat)
    requires pos < |s|
    ensures Xor(s[pos], 1) < 0x100
    ensures CellAt(w, s[pos := Xor(s[pos], 1)], pos) == Xor(CellAt(w, s, pos), TopOne(w))
  {
    ByteXor(s[pos], 1);
    if w == W16 {
      assert Pow2(8) == 0x100;
      XorSplit(8, s[pos], ByteAt(s, pos + 1), 1, 0);
      XorZero(ByteAt(s, pos + 1));
    }
  }

  /** The replicas of two blocks under the given numbers are the same. */
  ghost predicate SameReplicas(w: Width, k: nat, nodes: Vec, a: seq<Byte>, b: seq<Byte>)
    requires k >= 1 && PaddingFits(w, k, |a|) && PaddingFits(w, k, |b|)
  {
    forall t :: 0 <= t < |nodes| ==> Replica(w, k, nodes[t], a) == Replica(w, k, nodes[t], b)
  }

  /** The given cells added to the first group, and nothing else changed. */
  ghost predicate Changed(w: Width, k: nat, data: seq<Byte>, cells: Vec, other: seq<Byte>) {
    && |cells| == k && |other| == |data|
    && AfterGroup(w, k, other) == AfterGroup(w, k, data)
    && Group(w, k, other) == Add(Group(w, k, data), cells)
  }

  lemma ChangedReplica(w: Width, k: nat, n: nat, data: seq<Byte>, cells: Vec, other: seq<Byte>)
    requires k >= 1 && PaddingFits(w, k, |data|) && Changed(w, k, data, cells, other)
    requires Dot(w, Powers(w, n, k), cells) == 0
    ensures Replica(w, k, n, other) == Replica(w, k, n, data)
  {
    hide Powers, Group, AfterGroup, CellBytes;
    DotAdd(w, Powers(w, n, k), Group(w, k, data), cells);
    XorZero(Dot(w, Powers(w, n, k), Group(w, k, data)));
  }

  /** A block whose first group differs by the root polynomial of the numbers. */
  lemma TwinCells(w: Width, k: nat, m: nat, data: seq<Byte>, cells: Vec) returns (other: seq<Byte>)
    requires m < k == |cells| && CellSize(w) * m < |data| && InRange(w, cells)
    requires cells[m] == TopOne(w) && forall i :: m < i < k ==> cells[i] == 0
    ensures other != data && Changed(w, k, data, cells, other)
  {
    var pos := CellSize(w) * m;
    var front := Add(Group(w, m, data), cells[..m]);
    FrontRange(w, m, data, cells[..m]);
    TopByteFlipped(w, data, pos);
    var flipped := data[pos := Xor(data[pos], 1)];
    other := CellsBytes(w, front) + flipped[pos..];
    FlipChanges(data[pos]);
    assert other[pos] == flipped[pos];
    SameRest(w, k, m, data, flipped, other);
    forall i | 0 <= i < k ensures Group(w, k, other)[i] == Add(Group(w, k, data), cells)[i] {
      TwinCell(w, k, m, data, cells, flipped, other, i);
    }
    hide *;
  }

  lemma SameRest(w: Width, k: nat, m: nat, data: seq<Byte>, flipped: seq<Byte>, other: seq<Byte>)
    requires m < k && CellSize(w) * m < |data| == |flipped| == |other|
    requires flipped[CellSize(w) * m + 1..] == data[CellSize(w) * m + 1..]
    requires other[CellSize(w) * m..] == flipped[CellSize(w) * m..]
    ensures AfterGroup(w, k, other) == AfterGroup(w, k, data)
  {
    var pos, g := CellSize(w) * m, GroupSize(w, k);
    assert g >= pos + 1;
    if g < |data| {
      assert other[g..] == other[pos..][g - pos..];
      assert flipped[g..] == flipped[pos..][g - pos..] == flipped[pos + 1..][g - pos - 1..];
      assert data[g..] == data[pos + 1..][g - pos - 1..];
    }
  }

  lemma TwinCell(w: Width, k: nat, m: nat, data: seq<Byte>, cells: Vec, flipped: seq<Byte>, other: seq<Byte>, i: nat)
    requires i < k && m < k == |cells| && CellSize(w) * m < |data| && InRange(w, cells)
    requires cells[m] == TopOne(w) && forall i :: m < i < k ==> cells[i] == 0
    requires Xor(data[CellSize(w) * m], 1) < 0x100
    requires flipped == data[CellSize(w) * m := Xor(data[CellSize(w) * m], 1)]
    requires InRange(w, Add(Group(w, m, data), cells[..m]))
    requires other == CellsBytes(w, Add(Group(w, m, data), cells[..m])) + flipped[CellSize(w) * m..]
    ensures Group(w, k, other)[i] == Xor(Group(w, k, data)[i], cells[i])
  {
    hide Xor, CellAt, CellsBytes;
    var pos, at := CellSize(w) * m, CellSize(w) * i;
    if i < m {
      CellsBytesRead(w, Add(Group(w, m, data), cells[..m]), flipped[pos..], i);
    } else {
      assert forall p :: pos <= p < |data| ==> other[p] == flipped[pos..][p - pos] == flipped[p];
      SameBehind(w, other, flipped, pos, at);
      FlippedCell(w, m, data, cells[i], flipped, i);
    }
  }

  lemma FlippedCell(w: Width, m: nat, data: seq<Byte>, cell: nat, flipped: seq<Byte>, i: nat)
    requires m <= i && CellSize(w) * m < |data| && Xor(data[CellSize(w) * m], 1) < 0x100
    requires flipped == data[CellSize(w) * m := Xor(data[CellSize(w) * m], 1)]
    requires cell == if i == m then TopOne(w) else 0
    ensures CellAt(w, flipped, CellSize(w) * i) == Xor(CellAt(w, data, CellSize(w) * i), cell)
  {
    hide Xor, CellAt;
    if i == m {
      TopByteFlipped(w, data, CellSize(w) * m);
    } else {
      SameBehind(w, flipped, data, CellSize(w) * i, CellSize(w) * i);
      XorZero(CellAt(w, data, CellSize(w) * i));
    }
  }

  lemma FrontRange(w: Width, m: nat, data: seq<Byte>, cells: Vec)
    requires |cells| == m && InRange(w, cells)
    ensures InRange(w, Add(Group(w, m, data), cells))
  {
    hide Xor;
    GroupRange(w, m, data);
    forall i | 0 <= i < m ensures Xor(Group(w, m, data)[i], cells[i]) < Size(w) {
      XorRange(w, Group(w, m, data)[i], cells[i]);
    }
  }

  lemma FlipChanges(b: nat)
    ensures Xor(b, 1) != b
  {
    if Xor(b, 1) == b {
      XorCancel(b, 1);
      XorSelf(b);
    }
  }

  lemma SameBehind(w: Width, a: seq<Byte>, b: seq<Byte>, from: nat, pos: nat)
    requires from <= pos && |a| == |b| && forall p :: from <= p < |a| ==> a[p] == b[p]
    ensures CellAt(w, a, pos) == CellAt(w, b, pos)
  {
  }

  /**
    Fewer than k replicas: every block with more cells than there are replicas has a twin of the
    same length with the same replicas.
   */
  lemma Twin(w: Width, k: nat, nodes: Vec, data: seq<Byte>) returns (other: seq<Byte>)
    requires |nodes| < k && CellSize(w) * |nodes| < |data| && PaddingFits(w, k, |data|)
    ensures other != data && |other| == |data| && SameReplicas(w, k, nodes, data, other)
  {
    hide RootCells, Replica;
    RootCellsEnd(w, nodes, k);
    other := TwinCells(w, k, |nodes|, data, RootCells(w, nodes, k));
    forall t | 0 <= t < |nodes| ensures Replica(w, k, nodes[t], data) == Replica(w, k, nodes[t], other) {
      RootCellsVanish(w, nodes, k, t);
      ChangedReplica(w, k, nodes[t], data, RootCells(w, nodes, k), other);
    }
  }

  // ----- Short blocks -----

  /** A block of at most m cells is determined by m replicas, which stand for the polynomial of its m cells. */
  lemma ShortDetermined(w: Width, k: nat, nodes: Vec, mult: Rows, a: seq<Byte>, b: seq<Byte>)
    requires 1 <= |nodes| < k && Inverts(w, nodes, mult)
    requires |a| == |b| <= CellSize(w) * |nodes| && PaddingFits(w, k, |a|) && SameReplicas(w, k, nodes, a, b)
    ensures a == b
  {
    hide Inverts, Replica, Evals, Group;
    var m := |nodes|;
    if |a| > 0 {
      forall t | 0 <= t < m
        ensures Evals(w, nodes, Group(w, m, a))[t] == Evals(w, nodes, Group(w, m, b))[t]
      {
        FirstCodeCell(w, k, nodes, t, a);
        FirstCodeCell(w, k, nodes, t, b);
      }
      assert Evals(w, nodes, Group(w, m, a)) == Evals(w, nodes, Group(w, m, b));
      forall p | 0 <= p < |a| ensures a[p] == b[p] {
        var i := p / CellSize(w);
        assert i < m;
        CellDetermined(w, nodes, mult, a, b, i);
        CellRoundTrip(w, a, CellSize(w) * i);
        CellRoundTrip(w, b, CellSize(w) * i);
        hide CellAt;
      }
    }
  }

  lemma CellDetermined(w: Width, nodes: Vec, mult: Rows, a: seq<Byte>, b: seq<Byte>, i: nat)
    requires Inverts(w, nodes, mult) && i < |nodes|
    requires Evals(w, nodes, Group(w, |nodes|, a)) == Evals(w, nodes, Group(w, |nodes|, b))
    ensures CellAt(w, a, CellSize(w) * i) == CellAt(w, b, CellSize(w) * i)
  {
    hide Evals, DecodedCell, CellAt, Group, OnMonomials, Unit;
    DecodedGroupCell(w, nodes, mult, a, i);
    DecodedGroupCell(w, nodes, mult, b, i);
  }

  /** The first cell of a replica is the value of the polynomial of the first m cells, if there are no more. */
  lemma FirstCodeCell(w: Width, k: nat, nodes: Vec, t: nat, data: seq<Byte>)
    requires t < |nodes| < k && 0 < |data| <= CellSize(w) * |nodes| && PaddingFits(w, k, |data|)
    ensures CellAt(w, Replica(w, k, nodes[t], data), 0) == Evals(w, nodes, Group(w, |nodes|, data))[t]
  {
    hide PaddingFits, Replica, Dot, Powers, Group, CellAt, Pow;
    var m, x := |nodes|, nodes[t];
    ReplicaBegins(w, k, x, data);
    ZeroCells(w, m, k, data);
    assert CodeCell(w, k, x, data) == Dot(w, Powers(w, x, k), Group(w, k, data));
    assert Evals(w, nodes, Group(w, m, data))[t] == Dot(w, Powers(w, x, m), Group(w, m, data));
    hide *;
    assert m + (k - m) == k;
    DotZeroTail(w, x, Group(w, m, data), k - m);
  }

  lemma ReplicaBegins(w: Width, k: nat, n: nat, data: seq<Byte>)
    requires k >= 1 && |data| > 0 && PaddingFits(w, k, |data|)
    ensures CellAt(w, Replica(w, k, n, data), 0) == CodeCell(w, k, n, data)
  {
    hide CodeCell, CellAt, CellBytes;
    var v := CodeCell(w, k, n, data);
    var rest := Body(w, k, n, AfterGroup(w, k, data)) + PaddingBytes(Padding(w, k, |data|));
    assert Replica(w, k, n, data) == CellBytes(w, v) + rest;
    CellBytesRead(w, v, rest);
  }

  lemma ZeroCells(w: Width, m: nat, k: nat, data: seq<Byte>)
    requires m <= k && |data| <= CellSize(w) * m
    ensures Group(w, k, data) == Group(w, m, data) + Zeros(k - m)
  {
  }

  /** The exact number: m < k replicas determine the blocks of a length if and only if those have at most m cells. */
  lemma DeterminedIff(w: Width, k: nat, nodes: Vec, mult: Rows, size: nat)
    requires 1 <= |nodes| < k && Inverts(w, nodes, mult) && PaddingFits(w, k, size)
    ensures (forall a: seq<Byte>, b: seq<Byte> ::
               |a| == |b| == size && SameReplicas(w, k, nodes, a, b) ==> a == b) <==>
            size <= CellSize(w) * |nodes|
  {
    hide SameReplicas, Inverts;
    if size <= CellSize(w) * |nodes| {
      forall a: seq<Byte>, b: seq<Byte> | |a| == |b| == size && SameReplicas(w, k, nodes, a, b) ensures a == b {
        ShortDetermined(w, k, nodes, mult, a, b);
      }
    } else {
      var data: seq<Byte> := seq(size, i => 0);
      var other := Twin(w, k, nodes, data);
      assert |data| == |other| == size && SameReplicas(w, k, nodes, data, other);
    }
  }
}
