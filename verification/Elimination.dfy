/**
  The invariants of the in-place Gauss-Jordan elimination in the constructor of
  chunk_restore: two square matrices, `left` starting as a Vandermonde matrix and `mult`
  starting as the identity, changed by the same row operations.
 */
module Elimination {
  import opened Gf2Poly
  import opened Galois
  import opened Cyclic
  import opened Vectors

  type Rows = seq<Vec>

  /** l is the image of the functional u on the monomials: the row of u * V. */
  ghost predicate Linked(w: Width, nodes: Vec, l: Vec, u: Vec) {
    && |l| == |u| == |nodes|
    && InRange(w, l) && InRange(w, u)
    && OnMonomials(w, u, nodes, |nodes|) == l
  }

  /** left == mult * V, row by row. */
  ghost predicate AllLinked(w: Width, nodes: Vec, left: Rows, mult: Rows) {
    && |left| == |mult| == |nodes|
    && forall r :: 0 <= r < |nodes| ==> Linked(w, nodes, left[r], mult[r])
  }

  ghost predicate Nodes(w: Width, nodes: Vec) {
    InRange(w, nodes) && Distinct(nodes)
  }

  ghost predicate ZeroBefore(u: Vec, b: nat) {
    forall c :: 0 <= c < b && c < |u| ==> u[c] == 0
  }

  ghost predicate ZeroAfter(u: Vec, b: nat) {
    forall c :: b < c < |u| ==> u[c] == 0
  }

  function Combine(w: Width, a: nat, u: Vec, b: nat, v: Vec): (r: Vec)
    requires |u| == |v|
    ensures |r| == |u|
  {
    Add(Scale(w, a, u), Scale(w, b, v))
  }

  lemma CombineAt(w: Width, a: nat, u: Vec, b: nat, v: Vec, c: nat)
    requires |u| == |v| && c < |u|
    ensures Combine(w, a, u, b, v)[c] == Xor(Mul(w, a, u[c]), Mul(w, b, v[c]))
  {
  }

  lemma CombineRange(w: Width, a: nat, u: Vec, b: nat, v: Vec)
    requires |u| == |v|
    ensures InRange(w, Combine(w, a, u, b, v))
  {
    forall c | 0 <= c < |u| ensures Combine(w, a, u, b, v)[c] < Size(w) {
      CombineAt(w, a, u, b, v, c);
      hide Mul, Xor;
      MulRange(w, a, u[c]);
      MulRange(w, b, v[c]);
      XorRange(w, Mul(w, a, u[c]), Mul(w, b, v[c]));
    }
  }

  /** A row operation done on both sides keeps them linked. */
  lemma LinkedCombine(w: Width, nodes: Vec, a: nat, l1: Vec, u1: Vec, b: nat, l2: Vec, u2: Vec)
    requires Linked(w, nodes, l1, u1) && Linked(w, nodes, l2, u2)
    ensures Linked(w, nodes, Combine(w, a, l1, b, l2), Combine(w, a, u1, b, u2))
  {
    var l, u := Combine(w, a, l1, b, l2), Combine(w, a, u1, b, u2);
    CombineRange(w, a, l1, b, l2);
    CombineRange(w, a, u1, b, u2);
    forall c | 0 <= c < |nodes| ensures OnMonomials(w, u, nodes, |nodes|)[c] == l[c] {
      var x := Column(w, nodes, c);
      CombineAt(w, a, l1, b, l2, c);
      hide Mul, Xor, Dot, Column;
      DotAddLeft(w, Scale(w, a, u1), Scale(w, b, u2), x);
      DotScaleLeft(w, a, u1, x);
      DotScaleLeft(w, b, u2, x);
      assert OnMonomials(w, u1, nodes, |nodes|)[c] == l1[c];
      assert OnMonomials(w, u2, nodes, |nodes|)[c] == l2[c];
    }
  }

  // ----- The first pass: below the diagonal -----

  /** How many leading entries of row r are zero when row j is next to be reduced by row i. */
  function Cleared(r: nat, i: nat, j: nat): nat {
    if r <= i then r else if r < j then i + 1 else i
  }

  ghost predicate FirstPass(w: Width, nodes: Vec, left: Rows, mult: Rows, i: nat, j: nat) {
    && Nodes(w, nodes)
    && AllLinked(w, nodes, left, mult)
    && (forall r :: 0 <= r < |nodes| ==> ZeroBefore(left[r], Cleared(r, i, j)))
    && (forall r :: 0 <= r < |nodes| ==> mult[r][r] != 0 && ZeroAfter(mult[r], r))
  }

  lemma FirstPassStarts(w: Width, nodes: Vec, left: Rows, mult: Rows)
    requires Nodes(w, nodes) && |left| == |mult| == |nodes|
    requires forall r :: 0 <= r < |nodes| ==> left[r] == Powers(w, nodes[r], |nodes|)
    requires forall r :: 0 <= r < |nodes| ==> mult[r] == Unit(|nodes|, r)
    ensures FirstPass(w, nodes, left, mult, 0, 1)
  {
    hide Powers, Unit;
    forall r | 0 <= r < |nodes| ensures Linked(w, nodes, left[r], mult[r]) {
      UnitLinked(w, nodes, r);
    }
    forall r | 0 <= r < |nodes| ensures mult[r][r] != 0 && ZeroAfter(mult[r], r) {
      UnitDiagonal(|nodes|, r);
    }
  }

  lemma UnitDiagonal(k: nat, r: nat)
    requires r < k
    ensures Unit(k, r)[r] == 1 && ZeroAfter(Unit(k, r), r)
  {
  }

  lemma UnitLinked(w: Width, nodes: Vec, r: nat)
    requires r < |nodes|
    ensures Linked(w, nodes, Powers(w, nodes[r], |nodes|), Unit(|nodes|, r))
  {
    hide Mul, Dot, Pow;
    var u, l := Unit(|nodes|, r), Powers(w, nodes[r], |nodes|);
    forall c | 0 <= c < |nodes| ensures OnMonomials(w, u, nodes, |nodes|)[c] == l[c] < Size(w) {
      ColumnRange(w, nodes, c);
      DotUnit(w, Column(w, nodes, c), r);
      PowRange(w, nodes[r], c);
    }
  }

  lemma ColumnRange(w: Width, nodes: Vec, c: nat)
    ensures InRange(w, Column(w, nodes, c))
  {
    forall t | 0 <= t < |nodes| ensures Column(w, nodes, c)[t] < Size(w) {
      PowRange(w, nodes[t], c);
    }
  }

  /** The pivot of a reduced row is not zero. */
  lemma Pivot(w: Width, nodes: Vec, left: Rows, mult: Rows, i: nat, j: nat, r: nat)
    requires FirstPass(w, nodes, left, mult, i, j) && r < |nodes| && Cleared(r, i, j) >= r
    ensures left[r][r] != 0
  {
    hide Dot, Column;
    forall c | 0 <= c <= r ensures Dot(w, mult[r], Column(w, nodes, c)) == left[r][c] {
      assert Linked(w, nodes, left[r], mult[r]);
      assert OnMonomials(w, mult[r], nodes, |nodes|)[c] == left[r][c];
    }
    assert ZeroBefore(left[r], Cleared(r, i, j));
    assert ZeroAfter(mult[r], r);
    PivotNonzero(w, mult[r], nodes, r);
  }

  /** Reducing row j by row i. */
  lemma FirstPassStep(w: Width, nodes: Vec, left: Rows, mult: Rows, i: nat, j: nat)
    requires FirstPass(w, nodes, left, mult, i, j) && i < j < |nodes|
    ensures |left[i]| == |left[j]| == |mult[i]| == |mult[j]| == |nodes|
    ensures var m1, m2 := left[i][i], left[j][i];
            FirstPass(w, nodes,
              left[j := Combine(w, m1, left[j], m2, left[i])],
              mult[j := Combine(w, m1, mult[j], m2, mult[i])], i, j + 1)
  {
    assert Linked(w, nodes, left[i], mult[i]) && Linked(w, nodes, left[j], mult[j]);
    var m1, m2 := left[i][i], left[j][i];
    var l, u := Combine(w, m1, left[j], m2, left[i]), Combine(w, m1, mult[j], m2, mult[i]);
    LinkedCombine(w, nodes, m1, left[j], mult[j], m2, left[i], mult[i]);
    Pivot(w, nodes, left, mult, i, j, i);
    assert ZeroBefore(left[i], Cleared(i, i, j)) && ZeroBefore(left[j], Cleared(j, i, j));
    assert ZeroAfter(mult[i], i) && ZeroAfter(mult[j], j);
    hide Combine;
    CombineClears(w, m1, left[j], m2, left[i], i, l);
    CombineKeepsDiagonal(w, m1, mult[j], m2, mult[i], j, u);
  }

  /** What the loops may rely on before reducing row j by row i. */
  lemma FirstPassRows(w: Width, nodes: Vec, left: Rows, mult: Rows, i: nat, j: nat)
    requires FirstPass(w, nodes, left, mult, i, j) && i < |nodes| && i < j
    ensures |left| == |mult| == |nodes|
    ensures forall r :: 0 <= r < |nodes| ==>
      |left[r]| == |mult[r]| == |nodes| && InRange(w, left[r]) && InRange(w, mult[r])
    ensures ZeroBefore(left[i], i)
    ensures forall r :: i < r < j && r < |nodes| ==> ZeroBefore(left[r], i + 1)
    ensures forall r :: j <= r < |nodes| ==> ZeroBefore(left[r], i)
  {
    forall r | 0 <= r < |nodes| ensures ZeroBefore(left[r], Cleared(r, i, j)) && Linked(w, nodes, left[r], mult[r]) {
    }
  }

  lemma FirstPassNext(w: Width, nodes: Vec, left: Rows, mult: Rows, i: nat)
    requires FirstPass(w, nodes, left, mult, i, |nodes|) && i < |nodes|
    ensures FirstPass(w, nodes, left, mult, i + 1, i + 2)
  {
    forall r | 0 <= r < |nodes| ensures ZeroBefore(left[r], Cleared(r, i + 1, i + 2)) {
      assert ZeroBefore(left[r], Cleared(r, i, |nodes|));
    }
  }

  lemma CombineClears(w: Width, m1: nat, lj: Vec, m2: nat, li: Vec, i: nat, l: Vec)
    requires |lj| == |li| && i < |li| && l == Combine(w, m1, lj, m2, li)
    requires ZeroBefore(lj, i) && ZeroBefore(li, i) && m1 == li[i] && m2 == lj[i]
    ensures ZeroBefore(l, i + 1)
  {
    forall c | 0 <= c < i + 1 ensures l[c] == 0 {
      CombineAt(w, m1, lj, m2, li, c);
      hide Mul, Xor;
      MulZero(w, m1);
      MulZero(w, m2);
      MulComm(w, m1, m2);
      XorSelf(Mul(w, m1, lj[c]));
    }
  }

  lemma CombineKeepsDiagonal(w: Width, m1: nat, uj: Vec, m2: nat, ui: Vec, j: nat, u: Vec)
    requires |uj| == |ui| && j < |ui| && u == Combine(w, m1, uj, m2, ui)
    requires 1 <= m1 < Size(w) && InRange(w, uj) && uj[j] != 0
    requires ZeroAfter(uj, j) && (forall c :: j <= c < |ui| ==> ui[c] == 0)
    ensures u[j] != 0 && ZeroAfter(u, j)
  {
    forall c | j <= c < |u| ensures u[c] == Mul(w, m1, uj[c]) {
      CombineAt(w, m1, uj, m2, ui, c);
      hide Mul;
      MulZero(w, m2);
      XorZero(Mul(w, m1, uj[c]));
    }
    NoZeroDivisors(w, m1, uj[j]);
    MulZero(w, m1);
  }

  // ----- The second pass: the diagonal -----

  ghost predicate SecondPass(w: Width, nodes: Vec, left: Rows, mult: Rows, i: nat) {
    && AllLinked(w, nodes, left, mult)
    && (forall r :: 0 <= r < |nodes| ==> ZeroBefore(left[r], r))
    && (forall r :: 0 <= r < |nodes| ==> if r < i then left[r][r] == 1 else left[r][r] != 0)
  }

  lemma SecondPassStarts(w: Width, nodes: Vec, left: Rows, mult: Rows)
    requires FirstPass(w, nodes, left, mult, |nodes|, |nodes| + 1)
    ensures SecondPass(w, nodes, left, mult, 0)
  {
    forall r | 0 <= r < |nodes| ensures ZeroBefore(left[r], r) && left[r][r] != 0 {
      assert ZeroBefore(left[r], Cleared(r, |nodes|, |nodes| + 1));
      Pivot(w, nodes, left, mult, |nodes|, |nodes| + 1, r);
    }
  }

  /** Dividing is multiplying by the reciprocal. */
  lemma DivIsScale(w: Width, x: nat, m: nat)
    requires x < Size(w) && 1 <= m < Size(w)
    ensures Div(w, x, m) == Mul(w, Div(w, 1, m), x)
  {
    hide Mul, Div;
    var s := Div(w, 1, m);
    DivMul(w, 1, m);
    MulRange(w, s, x);
    MulDiv(w, Mul(w, s, x), m);
    // (s * x) * m == x
    MulComm(w, s, x);
    MulAssoc(w, x, s, m);
    MulOne(w, x);
  }

  /** A row divided by m, entry by entry. */
  ghost function DivideAll(w: Width, u: Vec, m: nat): (r: Vec)
    requires InRange(w, u) && m < Size(w)
    ensures |r| == |u|
  {
    seq(|u|, c requires 0 <= c < |u| => Div(w, u[c], m))
  }

  lemma DivideAllIsScale(w: Width, u: Vec, m: nat)
    requires InRange(w, u) && 1 <= m < Size(w)
    ensures DivideAll(w, u, m) == Scale(w, Div(w, 1, m), u)
  {
    forall c | 0 <= c < |u| ensures DivideAll(w, u, m)[c] == Scale(w, Div(w, 1, m), u)[c] {
      hide Mul, Div;
      DivIsScale(w, u[c], m);
    }
  }

  lemma LinkedScale(w: Width, nodes: Vec, a: nat, l: Vec, u: Vec)
    requires Linked(w, nodes, l, u)
    ensures Linked(w, nodes, Scale(w, a, l), Scale(w, a, u))
  {
    forall c | 0 <= c < |nodes| ensures OnMonomials(w, Scale(w, a, u), nodes, |nodes|)[c] == Scale(w, a, l)[c] {
      hide Mul, Dot, Column;
      DotScaleLeft(w, a, u, Column(w, nodes, c));
      assert OnMonomials(w, u, nodes, |nodes|)[c] == l[c];
    }
    forall c | 0 <= c < |nodes| ensures Scale(w, a, l)[c] < Size(w) && Scale(w, a, u)[c] < Size(w) {
      hide Mul;
      MulRange(w, a, l[c]);
      MulRange(w, a, u[c]);
    }
  }

  /** Dividing row i by its pivot. */
  lemma SecondPassStep(w: Width, nodes: Vec, left: Rows, mult: Rows, i: nat)
    requires SecondPass(w, nodes, left, mult, i) && i < |nodes|
    ensures Linked(w, nodes, left[i], mult[i])
    ensures var m := left[i][i];
            SecondPass(w, nodes, left[i := DivideAll(w, left[i], m)], mult[i := DivideAll(w, mult[i], m)], i + 1)
  {
    assert Linked(w, nodes, left[i], mult[i]);
    var m := left[i][i];
    DivideAllIsScale(w, left[i], m);
    DivideAllIsScale(w, mult[i], m);
    LinkedScale(w, nodes, Div(w, 1, m), left[i], mult[i]);
    assert ZeroBefore(left[i], i);
    hide Mul, Div;
    DivMul(w, 1, m);
    MulZero(w, Div(w, 1, m));
  }

  lemma SecondPassRows(w: Width, nodes: Vec, left: Rows, mult: Rows, i: nat)
    requires SecondPass(w, nodes, left, mult, i)
    ensures |left| == |mult| == |nodes|
    ensures forall r :: 0 <= r < |nodes| ==>
      |left[r]| == |mult[r]| == |nodes| && InRange(w, left[r]) && InRange(w, mult[r]) && ZeroBefore(left[r], r)
  {
    forall r | 0 <= r < |nodes| ensures Linked(w, nodes, left[r], mult[r]) {
    }
  }

  // ----- The third pass: above the diagonal, columns from the right -----

  /** The last column of row r that may still hold something besides the diagonal. */
  function Remaining(r: nat, i: nat, j: nat): nat {
    if r + 1 >= i then r
    else if r >= j then i - 2
    else i - 1
  }

  /** Row j - 1 is next to be reduced by row i - 1. */
  ghost predicate ThirdPass(w: Width, nodes: Vec, left: Rows, mult: Rows, i: nat, j: nat) {
    && AllLinked(w, nodes, left, mult)
    && (forall r :: 0 <= r < |nodes| ==> ZeroBefore(left[r], r) && left[r][r] == 1)
    && (forall r :: 0 <= r < |nodes| ==> ZeroAfter(left[r], Remaining(r, i, j)))
  }

  lemma ThirdPassStarts(w: Width, nodes: Vec, left: Rows, mult: Rows)
    requires SecondPass(w, nodes, left, mult, |nodes|) && |nodes| >= 1
    ensures ThirdPass(w, nodes, left, mult, |nodes|, |nodes| - 1)
  {
    forall r | 0 <= r < |nodes| ensures Linked(w, nodes, left[r], mult[r]) {
    }
  }

  /** Reducing row j - 1 by row i - 1. */
  lemma ThirdPassStep(w: Width, nodes: Vec, left: Rows, mult: Rows, i: nat, j: nat)
    requires ThirdPass(w, nodes, left, mult, i, j) && 1 <= j < i <= |nodes|
    ensures Linked(w, nodes, left[i - 1], mult[i - 1]) && Linked(w, nodes, left[j - 1], mult[j - 1])
    ensures var m1 := left[j - 1][i - 1];
            ThirdPass(w, nodes,
              left[j - 1 := Combine(w, 1, left[j - 1], m1, left[i - 1])],
              mult[j - 1 := Combine(w, 1, mult[j - 1], m1, mult[i - 1])], i, j - 1)
  {
    hide Combine, OnMonomials;
    assert Linked(w, nodes, left[i - 1], mult[i - 1]) && Linked(w, nodes, left[j - 1], mult[j - 1]);
    var m1 := left[j - 1][i - 1];
    var l := Combine(w, 1, left[j - 1], m1, left[i - 1]);
    LinkedCombine(w, nodes, 1, left[j - 1], mult[j - 1], m1, left[i - 1], mult[i - 1]);
    assert ZeroBefore(left[i - 1], i - 1) && ZeroAfter(left[i - 1], Remaining(i - 1, i, j));
    assert ZeroBefore(left[j - 1], j - 1) && ZeroAfter(left[j - 1], Remaining(j - 1, i, j));
    ClearsOneEntry(w, left[j - 1], m1, left[i - 1], i - 1, l);
  }

  lemma ThirdPassRows(w: Width, nodes: Vec, left: Rows, mult: Rows, i: nat, j: nat)
    requires ThirdPass(w, nodes, left, mult, i, j)
    ensures |left| == |mult| == |nodes|
    ensures forall r :: 0 <= r < |nodes| ==>
      |left[r]| == |mult[r]| == |nodes| && InRange(w, left[r]) && InRange(w, mult[r])
  {
    forall r | 0 <= r < |nodes| ensures Linked(w, nodes, left[r], mult[r]) {
    }
  }

  lemma ThirdPassNext(w: Width, nodes: Vec, left: Rows, mult: Rows, i: nat)
    requires ThirdPass(w, nodes, left, mult, i, 0) && 1 <= i <= |nodes|
    ensures ThirdPass(w, nodes, left, mult, i - 1, if i >= 2 then i - 2 else 0)
  {
    forall r | 0 <= r < |nodes| ensures ZeroAfter(left[r], Remaining(r, i - 1, if i >= 2 then i - 2 else 0)) {
      assert ZeroAfter(left[r], Remaining(r, i, 0));
    }
  }

  /** Subtracting a multiple of a unit row changes one entry only, and makes it zero. */
  lemma ClearsOneEntry(w: Width, lj: Vec, m1: nat, li: Vec, p: nat, l: Vec)
    requires |lj| == |li| && p < |li| && l == Combine(w, 1, lj, m1, li) && InRange(w, lj)
    requires m1 == lj[p] && li[p] == 1 && forall c :: 0 <= c < |li| && c != p ==> li[c] == 0
    ensures l == lj[p := 0]
  {
    forall c | 0 <= c < |l| ensures l[c] == lj[p := 0][c] {
      CombineAt(w, 1, lj, m1, li, c);
      hide Mul, Xor;
      MulOne(w, lj[c]);
      MulOne(w, m1);
      MulZero(w, m1);
      XorZero(lj[c]);
      XorSelf(m1);
    }
  }

  /** When nothing remains, left is the identity and mult the inverse of the Vandermonde matrix. */
  lemma ThirdPassDone(w: Width, nodes: Vec, left: Rows, mult: Rows, r: nat)
    requires ThirdPass(w, nodes, left, mult, 0, 0) && r < |nodes|
    ensures left[r] == Unit(|nodes|, r)
    ensures |mult[r]| == |nodes| && OnMonomials(w, mult[r], nodes, |nodes|) == Unit(|nodes|, r)
  {
    assert Linked(w, nodes, left[r], mult[r]);
    assert ZeroBefore(left[r], r) && ZeroAfter(left[r], Remaining(r, 0, 0));
    assert left[r] == Unit(|nodes|, r);
  }
}
