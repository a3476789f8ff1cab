/**
  The constructor of chunk_restore in kernel/vds_data/chunk.h: two k by k matrices, changed
  in place by three passes of row operations without pivoting.
 */
module Matrix {
  import opened Gf2Poly
  import opened Galois
  import opened Vectors
  import opened Elimination
  import opened GfMath
  import opened Numbers
  import C = Cyclic
  import AnyK

  /** The largest number of rows whose square is an int. */
  const MAX_K: nat := 46340

  /** The size of the matrix is computed in int. */
  lemma SizeFitsIff(k: nat)
    ensures k * k <= INT_MAX <==> k <= MAX_K
  {
    if k <= MAX_K {
      SquareGrows(k, MAX_K);
    } else {
      SquareGrows(MAX_K + 1, k);
    }
  }

  lemma SquareGrows(a: nat, b: nat)
    requires a <= b
    ensures a * a <= b * b
  {
    assert a * a <= a * b <= b * b;
  }

  function Row(a: array2<nat>, r: nat): (u: Vec)
    requires r < a.Length0
    reads a
    ensures |u| == a.Length1
  {
    seq(a.Length1, c requires 0 <= c < a.Length1 reads a => a[r, c])
  }

  /** The matrix as a sequence of rows. */
  function RowsOf(a: array2<nat>): (m: Rows)
    reads a
    ensures |m| == a.Length0
  {
    seq(a.Length0, r requires 0 <= r < a.Length0 reads a => Row(a, r))
  }

  /** generate_multipliers: the powers of n, each from the one before. */
  method GenerateMultipliers(math: Math, multipliers: array<nat>, k: nat, n: nat)
    requires math.Valid() && n < Size(math.w) && multipliers.Length == k
    requires multipliers != math.log2value && multipliers != math.value2log
    modifies multipliers
    ensures multipliers[..] == Powers(math.w, n, k)
  {
    hide Mul, Xor, Pow, TablesHold;
    var value := 1;
    FirstPow(math.w, n);
    for i := 0 to k
      invariant math.Valid()
      invariant value == Pow(math.w, n, i) < Size(math.w)
      invariant forall c :: 0 <= c < i ==> multipliers[c] == Pow(math.w, n, c)
    {
      multipliers[i] := value;
      PowRange(math.w, n, i + 1);
      NextPow(math.w, n, i);
      value := math.Mul(value, n);
    }
  }

  lemma FirstPow(w: Width, n: nat)
    ensures Pow(w, n, 0) == 1
  {
  }

  lemma NextPow(w: Width, n: nat, e: nat)
    ensures Pow(w, n, e + 1) == Mul(w, Pow(w, n, e), n)
  {
  }

  /** Copies one row of multipliers into a matrix. */
  method SetRow(a: array2<nat>, r: nat, u: seq<nat>)
    requires r < a.Length0 && |u| == a.Length1
    modifies a
    ensures RowsOf(a) == old(RowsOf(a))[r := u]
  {
    ghost var before := RowsOf(a);
    for c := 0 to a.Length1
      invariant forall c' :: 0 <= c' < c ==> a[r, c'] == u[c']
      invariant forall r', c' :: 0 <= r' < a.Length0 && 0 <= c' < a.Length1 && r' != r ==> a[r', c'] == old(a[r', c'])
    {
      a[r, c] := u[c];
    }
    forall r' | 0 <= r' < a.Length0 ensures RowsOf(a)[r'] == before[r := u][r'] {
    }
  }

  /** Row j becomes x * row j + y * row i: the loop over c of the first and third pass. */
  method CombineRow(math: Math, a: array2<nat>, i: nat, j: nat, x: nat, y: nat)
    requires math.Valid() && i < a.Length0 && j < a.Length0 && i != j && x < Size(math.w) && y < Size(math.w)
    requires InRange(math.w, Row(a, i)) && InRange(math.w, Row(a, j))
    modifies a
    ensures math.Valid()
    ensures RowsOf(a) == old(RowsOf(a))[j := Combine(math.w, x, old(Row(a, j)), y, old(Row(a, i)))]
  {
    hide Mul, Xor, TablesHold;
    var w := math.w;
    ghost var before, u, v := RowsOf(a), Row(a, j), Row(a, i);
    for c := 0 to a.Length1
      invariant math.Valid()
      invariant forall c' :: 0 <= c' < c ==> a[j, c'] == Xor(Mul(w, x, u[c']), Mul(w, y, v[c']))
      invariant forall c' :: c <= c' < a.Length1 ==> a[j, c'] == u[c']
      invariant forall r', c' :: 0 <= r' < a.Length0 && 0 <= c' < a.Length1 && r' != j ==> a[r', c'] == old(a[r', c'])
    {
      assert a[i, c] == v[c];
      a[j, c] := math.Sub(math.Mul(x, a[j, c]), math.Mul(y, a[i, c]));
    }
    ghost var combined := Combine(w, x, u, y, v);
    assert Row(a, j) == combined;
    forall r' | 0 <= r' < a.Length0 ensures RowsOf(a)[r'] == before[j := combined][r'] {
    }
  }

  /** Row j loses y times row i: the loop over c of the third pass. */
  method SubtractRow(math: Math, a: array2<nat>, i: nat, j: nat, y: nat)
    requires math.Valid() && i < a.Length0 && j < a.Length0 && i != j && y < Size(math.w)
    requires InRange(math.w, Row(a, i)) && InRange(math.w, Row(a, j))
    modifies a
    ensures math.Valid()
    ensures RowsOf(a) == old(RowsOf(a))[j := Combine(math.w, 1, old(Row(a, j)), y, old(Row(a, i)))]
  {
    hide Mul, Xor, TablesHold;
    var w := math.w;
    ghost var before, u, v := RowsOf(a), Row(a, j), Row(a, i);
    for c := 0 to a.Length1
      invariant math.Valid()
      invariant forall c' :: 0 <= c' < c ==> a[j, c'] == Xor(Mul(w, 1, u[c']), Mul(w, y, v[c']))
      invariant forall c' :: c <= c' < a.Length1 ==> a[j, c'] == u[c']
      invariant forall r', c' :: 0 <= r' < a.Length0 && 0 <= c' < a.Length1 && r' != j ==> a[r', c'] == old(a[r', c'])
    {
      assert a[i, c] == v[c];
      MulOne(w, u[c]);
      MulComm(w, v[c], y);
      a[j, c] := math.Sub(a[j, c], math.Mul(a[i, c], y));
    }
    ghost var combined := Combine(w, 1, u, y, v);
    assert Row(a, j) == combined;
    forall r' | 0 <= r' < a.Length0 ensures RowsOf(a)[r'] == before[j := combined][r'] {
    }
  }

  /** Row i is divided by m from column `from` on; the source checks that what precedes it is zero. */
  method DivideRow(math: Math, a: array2<nat>, i: nat, from: nat, m: nat)
    requires math.Valid() && i < a.Length0 && m < Size(math.w)
    requires InRange(math.w, Row(a, i)) && ZeroBefore(Row(a, i), from)
    modifies a
    ensures math.Valid()
    ensures RowsOf(a) == old(RowsOf(a))[i := DivideAll(math.w, old(Row(a, i)), m)]
  {
    hide TablesHold, C.Div;
    var w := math.w;
    ghost var before, u := RowsOf(a), Row(a, i);
    for c := 0 to a.Length1
      invariant math.Valid()
      invariant forall c' :: 0 <= c' < c ==> a[i, c'] == C.Div(w, u[c'], m)
      invariant forall c' :: c <= c' < a.Length1 ==> a[i, c'] == u[c']
      invariant forall r', c' :: 0 <= r' < a.Length0 && 0 <= c' < a.Length1 && r' != i ==> a[r', c'] == old(a[r', c'])
    {
      if c < from {
        assert a[i, c] == 0;
        DivZero(w, m);
      } else {
        var q := math.Div(a[i, c], m);
        a[i, c] := q;
      }
    }
    ghost var divided := DivideAll(w, u, m);
    assert Row(a, i) == divided;
    forall r' | 0 <= r' < a.Length0 ensures RowsOf(a)[r'] == before[i := divided][r'] {
    }
  }

  lemma DivZero(w: Width, m: nat)
    requires m < Size(w)
    ensures C.Div(w, 0, m) == 0
  {
  }

  /** prepare: left holds the Vandermonde matrix, mult the identity. */
  method Prepare(math: Math, nodes: seq<nat>, left: array2<nat>, mult: array2<nat>)
    requires math.Valid() && InRange(math.w, nodes)
    requires left.Length0 == left.Length1 == mult.Length0 == mult.Length1 == |nodes| && left != mult
    modifies left, mult
    ensures math.Valid()
    ensures forall r :: 0 <= r < |nodes| ==> RowsOf(left)[r] == Powers(math.w, nodes[r], |nodes|)
    ensures forall r :: 0 <= r < |nodes| ==> RowsOf(mult)[r] == Unit(|nodes|, r)
  {
    hide TablesHold, Powers, Unit;
    var k := |nodes|;
    var row := new nat[k](_ => 0);
    for i := 0 to k
      invariant math.Valid()
      invariant forall r :: 0 <= r < i ==> RowsOf(left)[r] == Powers(math.w, nodes[r], k)
      invariant forall r :: 0 <= r < i ==> RowsOf(mult)[r] == Unit(k, r)
    {
      GenerateMultipliers(math, row, k, nodes[i]);
      SetRow(left, i, row[..]);
      var unit := seq(k, j => if i == j then 1 else 0);
      IsUnit(k, i, unit);
      SetRow(mult, i, unit);
    }
  }

  lemma IsUnit(k: nat, i: nat, u: Vec)
    requires u == seq(k, j => if i == j then 1 else 0)
    ensures u == Unit(k, i)
  {
  }

  /** first: clears everything below the diagonal. */
  method FirstPasses(math: Math, ghost nodes: seq<nat>, k: nat, left: array2<nat>, mult: array2<nat>)
    requires math.Valid() && k == |nodes|
    requires left.Length0 == left.Length1 == mult.Length0 == mult.Length1 == k && left != mult
    requires FirstPass(math.w, nodes, RowsOf(left), RowsOf(mult), 0, 1)
    modifies left, mult
    ensures math.Valid()
    ensures FirstPass(math.w, nodes, RowsOf(left), RowsOf(mult), k, k + 1)
  {
    hide TablesHold, FirstPass, Combine;
    var w := math.w;
    for i := 0 to k
      invariant math.Valid()
      invariant FirstPass(w, nodes, RowsOf(left), RowsOf(mult), i, i + 1)
    {
      var m1 := left[i, i];
      for j := i + 1 to k
        invariant math.Valid()
        invariant FirstPass(w, nodes, RowsOf(left), RowsOf(mult), i, j)
        invariant m1 == left[i, i]
      {
        FirstPassRows(w, nodes, RowsOf(left), RowsOf(mult), i, j);
        FirstPassStep(w, nodes, RowsOf(left), RowsOf(mult), i, j);
        assert RowsOf(left)[i] == Row(left, i) && RowsOf(left)[j] == Row(left, j);
        assert RowsOf(mult)[i] == Row(mult, i) && RowsOf(mult)[j] == Row(mult, j);
        // The source asserts that the entries before column i are zero ...
        assert forall c :: 0 <= c < i ==> left[j, c] == Row(left, j)[c] == 0;
        var m2 := left[j, i];
        CombineRow(math, left, i, j, m1, m2);
        CombineRow(math, mult, i, j, m1, m2);
        // ... and that those up to column i are zero afterwards.
        FirstPassRows(w, nodes, RowsOf(left), RowsOf(mult), i, j + 1);
        assert RowsOf(left)[j] == Row(left, j) && RowsOf(left)[i] == Row(left, i);
        assert forall c :: 0 <= c <= i ==> left[j, c] == Row(left, j)[c] == 0;
        assert left[i, i] == Row(left, i)[i];
      }
      FirstPassNext(w, nodes, RowsOf(left), RowsOf(mult), i);
    }
  }

  /** The second pass divides every row by its pivot. */
  method SecondPasses(math: Math, ghost nodes: seq<nat>, k: nat, left: array2<nat>, mult: array2<nat>)
    requires math.Valid() && k == |nodes|
    requires left.Length0 == left.Length1 == mult.Length0 == mult.Length1 == k && left != mult
    requires SecondPass(math.w, nodes, RowsOf(left), RowsOf(mult), 0)
    modifies left, mult
    ensures math.Valid()
    ensures SecondPass(math.w, nodes, RowsOf(left), RowsOf(mult), k)
  {
    hide TablesHold, SecondPass, DivideAll;
    var w := math.w;
    for i := 0 to k
      invariant math.Valid()
      invariant SecondPass(w, nodes, RowsOf(left), RowsOf(mult), i)
    {
      SecondPassRows(w, nodes, RowsOf(left), RowsOf(mult), i);
      SecondPassStep(w, nodes, RowsOf(left), RowsOf(mult), i);
      assert RowsOf(left)[i] == Row(left, i) && RowsOf(mult)[i] == Row(mult, i);
      var m1 := left[i, i];
      DivideRow(math, left, i, i, m1);
      DivideRow(math, mult, i, 0, m1);
    }
  }

  /** One column of the reverse pass: clears everything above the diagonal. */
  method ThirdPassColumn(math: Math, ghost nodes: seq<nat>, k: nat, left: array2<nat>, mult: array2<nat>, i: nat)
    requires math.Valid() && k == |nodes| && 1 <= i <= k
    requires left.Length0 == left.Length1 == mult.Length0 == mult.Length1 == k && left != mult
    requires ThirdPass(math.w, nodes, RowsOf(left), RowsOf(mult), i, i - 1)
    modifies left, mult
    ensures math.Valid()
    ensures ThirdPass(math.w, nodes, RowsOf(left), RowsOf(mult), i, 0)
  {
    hide TablesHold, ThirdPass, Combine;
    var w := math.w;
    var j := i - 1;
    while j > 0
      invariant 0 <= j < i && math.Valid()
      invariant ThirdPass(w, nodes, RowsOf(left), RowsOf(mult), i, j)
    {
      ThirdPassRows(w, nodes, RowsOf(left), RowsOf(mult), i, j);
      ThirdPassStep(w, nodes, RowsOf(left), RowsOf(mult), i, j);
      assert RowsOf(left)[i - 1] == Row(left, i - 1) && RowsOf(left)[j - 1] == Row(left, j - 1);
      assert RowsOf(mult)[i - 1] == Row(mult, i - 1) && RowsOf(mult)[j - 1] == Row(mult, j - 1);
      var m1 := left[j - 1, i - 1];
      SubtractRow(math, left, i - 1, j - 1, m1);
      SubtractRow(math, mult, i - 1, j - 1, m1);
      j := j - 1;
    }
  }

  /** reverse: clears everything above the diagonal, from the last column to the first. */
  method ThirdPasses(math: Math, ghost nodes: seq<nat>, k: nat, left: array2<nat>, mult: array2<nat>)
    requires math.Valid() && k == |nodes| && k >= 1
    requires left.Length0 == left.Length1 == mult.Length0 == mult.Length1 == k && left != mult
    requires ThirdPass(math.w, nodes, RowsOf(left), RowsOf(mult), k, k - 1)
    modifies left, mult
    ensures math.Valid()
    ensures ThirdPass(math.w, nodes, RowsOf(left), RowsOf(mult), 0, 0)
  {
    hide TablesHold, ThirdPass, Combine;
    var w := math.w;
    var i := k;
    while i > 0
      invariant 0 <= i <= k && math.Valid()
      invariant ThirdPass(w, nodes, RowsOf(left), RowsOf(mult), i, if i >= 1 then i - 1 else 0)
    {
      ThirdPassColumn(math, nodes, k, left, mult, i);
      ThirdPassNext(w, nodes, RowsOf(left), RowsOf(mult), i);
      i := i - 1;
    }
  }

  /** The constructor: the matrix it leaves in mult is the inverse of the Vandermonde matrix. */
  method Invert(math: Math, nodes: seq<nat>, mult: array2<nat>)
    requires math.Valid() && Nodes(math.w, nodes) && 1 <= |nodes| <= MAX_K
    requires mult.Length0 == mult.Length1 == |nodes|
    modifies mult
    ensures math.Valid()
    ensures AnyK.Inverts(math.w, nodes, RowsOf(mult))
  {
    hide TablesHold, FirstPass, SecondPass, ThirdPass;
    var k := |nodes|;
    var left := new nat[k, k]((i, j) => 0);
    Prepare(math, nodes, left, mult);
    FirstPassStarts(math.w, nodes, RowsOf(left), RowsOf(mult));
    FirstPasses(math, nodes, k, left, mult);
    SecondPassStarts(math.w, nodes, RowsOf(left), RowsOf(mult));
    SecondPasses(math, nodes, k, left, mult);
    ThirdPassStarts(math.w, nodes, RowsOf(left), RowsOf(mult));
    ThirdPasses(math, nodes, k, left, mult);
    ThirdPassRows(math.w, nodes, RowsOf(left), RowsOf(mult), 0, 0);
    forall r | 0 <= r < k
      ensures RowsOf(left)[r] == Unit(k, r)
      ensures OnMonomials(math.w, RowsOf(mult)[r], nodes, k) == Unit(k, r)
    {
      ThirdPassDone(math.w, nodes, RowsOf(left), RowsOf(mult), r);
    }
    Validate(left, k);
  }

  /** validate: the source compares every entry with the identity matrix. */
  method Validate(left: array2<nat>, k: nat)
    requires left.Length0 == left.Length1 == k
    requires forall r :: 0 <= r < k ==> RowsOf(left)[r] == Unit(k, r)
  {
    for i := 0 to k {
      for c := 0 to k {
        var value := left[i, c];
        assert RowsOf(left)[i][c] == value;
        if i == c {
          assert 1 == value;
        } else {
          assert 0 == value;
        }
      }
    }
  }
}
