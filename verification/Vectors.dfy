/**
  Vectors over the field of a given width, and the linear algebra behind the inversion of a
  Vandermonde matrix: linear functionals, their values on monomials, and the argument that
  Gaussian elimination of distinct nodes never meets a zero pivot.
 */
module Vectors {
  import opened Gf2Poly
  import opened Galois
  import opened Cyclic

  type Vec = seq<nat>

  ghost predicate InRange(w: Width, u: Vec) {
    forall i :: 0 <= i < |u| ==> u[i] < Size(w)
  }

  ghost predicate Distinct(u: Vec) {
    forall i, j :: 0 <= i < j < |u| ==> u[i] != u[j]
  }

  /** The sum of products, accumulated from the left as the loops of chunk.h do. */
  function Dot(w: Width, u: Vec, v: Vec): nat
    requires |u| == |v|
  {
    if |u| == 0 then 0
    else
      var n := |u| - 1;
      Xor(Dot(w, u[..n], v[..n]), Mul(w, u[n], v[n]))
  }

  function Add(u: Vec, v: Vec): (r: Vec)
    requires |u| == |v|
    ensures |r| == |u|
  {
    seq(|u|, i requires 0 <= i < |u| => Xor(u[i], v[i]))
  }

  function Scale(w: Width, a: nat, u: Vec): (r: Vec)
    ensures |r| == |u|
  {
    seq(|u|, i requires 0 <= i < |u| => Mul(w, a, u[i]))
  }

  lemma DotPrefix(w: Width, u: Vec, v: Vec, n: nat)
    requires |u| == |v| && n < |u|
    ensures Dot(w, u[..n + 1], v[..n + 1]) == Xor(Dot(w, u[..n], v[..n]), Mul(w, u[n], v[n]))
  {
    assert u[..n + 1][..n] == u[..n] && v[..n + 1][..n] == v[..n];
  }

  lemma {:induction false} DotRange(w: Width, u: Vec, v: Vec)
    requires |u| == |v|
    ensures Dot(w, u, v) < Size(w)
  {
    hide Xor, Mul;
    if |u| != 0 {
      var n := |u| - 1;
      DotRange(w, u[..n], v[..n]);
      MulRange(w, u[n], v[n]);
      XorRange(w, Dot(w, u[..n], v[..n]), Mul(w, u[n], v[n]));
    }
  }

  lemma {:induction false} DotComm(w: Width, u: Vec, v: Vec)
    requires |u| == |v|
    ensures Dot(w, u, v) == Dot(w, v, u)
  {
    hide Xor, Mul;
    if |u| != 0 {
      var n := |u| - 1;
      DotComm(w, u[..n], v[..n]);
      MulComm(w, u[n], v[n]);
    }
  }

  lemma {:induction false} DotAdd(w: Width, u: Vec, v: Vec, x: Vec)
    requires |u| == |v| == |x|
    ensures Dot(w, u, Add(v, x)) == Xor(Dot(w, u, v), Dot(w, u, x))
  {
    hide Xor, Mul;
    if |u| == 0 {
      XorZero(0);
    } else {
      var n := |u| - 1;
      DotAdd(w, u[..n], v[..n], x[..n]);
      assert Add(v, x)[..n] == Add(v[..n], x[..n]);
      MulXor(w, u[n], v[n], x[n]);
      XorSwap(Dot(w, u[..n], v[..n]), Dot(w, u[..n], x[..n]), Mul(w, u[n], v[n]), Mul(w, u[n], x[n]));
    }
  }

  lemma {:induction false} DotScale(w: Width, u: Vec, a: nat, v: Vec)
    requires |u| == |v|
    ensures Dot(w, u, Scale(w, a, v)) == Mul(w, a, Dot(w, u, v))
  {
    hide Xor, Mul;
    if |u| == 0 {
      MulZero(w, a);
    } else {
      var n := |u| - 1;
      DotScale(w, u[..n], a, v[..n]);
      assert Scale(w, a, v)[..n] == Scale(w, a, v[..n]);
      MulXor(w, a, Dot(w, u[..n], v[..n]), Mul(w, u[n], v[n]));
      MulAssoc(w, u[n], a, v[n]);
      MulComm(w, u[n], a);
      MulAssoc(w, a, u[n], v[n]);
    }
  }

  lemma DotAddLeft(w: Width, u: Vec, v: Vec, x: Vec)
    requires |u| == |v| == |x|
    ensures Dot(w, Add(u, v), x) == Xor(Dot(w, u, x), Dot(w, v, x))
  {
    DotComm(w, Add(u, v), x);
    DotComm(w, u, x);
    DotComm(w, v, x);
    hide *;
    DotAdd(w, x, u, v);
  }

  lemma DotScaleLeft(w: Width, a: nat, u: Vec, x: Vec)
    requires |u| == |x|
    ensures Dot(w, Scale(w, a, u), x) == Mul(w, a, Dot(w, u, x))
  {
    DotComm(w, Scale(w, a, u), x);
    DotComm(w, u, x);
    hide *;
    DotScale(w, x, a, u);
  }

  /** If all products but one vanish, that one is the whole sum. */
  lemma {:induction false} DotSingle(w: Width, u: Vec, v: Vec, i: nat)
    requires |u| == |v| && i < |u|
    requires forall t :: 0 <= t < |u| && t != i ==> Mul(w, u[t], v[t]) == 0
    ensures Dot(w, u, v) == Mul(w, u[i], v[i])
  {
    hide Xor, Mul;
    var n := |u| - 1;
    if i == n {
      DotVanishes(w, u[..n], v[..n]);
      XorZero(Mul(w, u[n], v[n]));
    } else {
      DotSingle(w, u[..n], v[..n], i);
      XorZero(Mul(w, u[i], v[i]));
    }
  }

  lemma {:induction false} DotVanishes(w: Width, u: Vec, v: Vec)
    requires |u| == |v|
    requires forall t :: 0 <= t < |u| ==> Mul(w, u[t], v[t]) == 0
    ensures Dot(w, u, v) == 0
  {
    hide Xor, Mul;
    if |u| != 0 {
      DotVanishes(w, u[..|u| - 1], v[..|u| - 1]);
      XorZero(0);
    }
  }

  // ----- Powers of the nodes -----

  /** x^e by repeated multiplication, as in generate_multipliers. */
  function Pow(w: Width, x: nat, e: nat): nat {
    if e == 0 then 1 else Mul(w, Pow(w, x, e - 1), x)
  }

  lemma PowRange(w: Width, x: nat, e: nat)
    ensures Pow(w, x, e) < Size(w)
  {
    if e != 0 {
      MulRange(w, Pow(w, x, e - 1), x);
    }
  }

  /** Row n of the Vandermonde matrix. */
  function Powers(w: Width, n: nat, k: nat): (r: Vec)
    ensures |r| == k
  {
    seq(k, c requires 0 <= c < k => Pow(w, n, c))
  }

  /** Column c of the Vandermonde matrix of the given nodes. */
  function Column(w: Width, nodes: Vec, c: nat): (r: Vec)
    ensures |r| == |nodes|
  {
    seq(|nodes|, t requires 0 <= t < |nodes| => Pow(w, nodes[t], c))
  }

  // ----- Pivots -----

  /** The value at x of the polynomial whose roots are the first j nodes. */
  function Roots(w: Width, nodes: Vec, x: nat, j: nat): nat
    requires j <= |nodes|
  {
    if j == 0 then 1 else Mul(w, Roots(w, nodes, x, j - 1), Xor(x, nodes[j - 1]))
  }

  lemma {:induction false} RootsRange(w: Width, nodes: Vec, x: nat, j: nat)
    requires j <= |nodes|
    ensures Roots(w, nodes, x, j) < Size(w)
  {
    if j != 0 {
      MulRange(w, Roots(w, nodes, x, j - 1), Xor(x, nodes[j - 1]));
    }
  }

  lemma {:induction false} RootsVanish(w: Width, nodes: Vec, t: nat, j: nat)
    requires t < j <= |nodes|
    ensures Roots(w, nodes, nodes[t], j) == 0
    decreases j
  {
    hide Xor, Mul;
    if t == j - 1 {
      XorSelf(nodes[t]);
      MulZero(w, Roots(w, nodes, nodes[t], j - 1));
    } else {
      RootsVanish(w, nodes, t, j - 1);
      MulZero(w, Xor(nodes[t], nodes[j - 1]));
    }
  }

  lemma {:induction false} RootsNonzero(w: Width, nodes: Vec, x: nat, j: nat)
    requires j <= |nodes| && InRange(w, nodes) && x < Size(w)
    requires forall t :: 0 <= t < j ==> nodes[t] != x
    ensures Roots(w, nodes, x, j) != 0
    decreases j
  {
    hide Xor, Mul;
    if j != 0 {
      RootsNonzero(w, nodes, x, j - 1);
      RootsRange(w, nodes, x, j - 1);
      XorRange(w, x, nodes[j - 1]);
      if Xor(x, nodes[j - 1]) == 0 {
        XorZeroMeansEqual(x, nodes[j - 1]);
      }
      NoZeroDivisors(w, Roots(w, nodes, x, j - 1), Xor(x, nodes[j - 1]));
    }
  }

  /** The values on all nodes of x^d times the polynomial that vanishes on the first j nodes. */
  function Shifted(w: Width, nodes: Vec, d: nat, j: nat): (r: Vec)
    requires j <= |nodes|
    ensures |r| == |nodes|
  {
    seq(|nodes|, t requires 0 <= t < |nodes| => Mul(w, Pow(w, nodes[t], d), Roots(w, nodes, nodes[t], j)))
  }

  lemma ShiftedStart(w: Width, nodes: Vec, d: nat)
    ensures Shifted(w, nodes, d, 0) == Column(w, nodes, d)
  {
    forall t | 0 <= t < |nodes| ensures Shifted(w, nodes, d, 0)[t] == Column(w, nodes, d)[t] {
      PowRange(w, nodes[t], d);
      hide Mul, Pow;
      MulOne(w, Pow(w, nodes[t], d));
    }
  }

  lemma ShiftedStep(w: Width, nodes: Vec, d: nat, j: nat)
    requires j < |nodes|
    ensures Shifted(w, nodes, d, j + 1)
         == Add(Shifted(w, nodes, d + 1, j), Scale(w, nodes[j], Shifted(w, nodes, d, j)))
  {
    var sum := Add(Shifted(w, nodes, d + 1, j), Scale(w, nodes[j], Shifted(w, nodes, d, j)));
    forall t | 0 <= t < |nodes| ensures Shifted(w, nodes, d, j + 1)[t] == sum[t] {
      var x := nodes[t];
      FactorStep(w, Pow(w, x, d), Roots(w, nodes, x, j), x, nodes[j]);
    }
  }

  /** p * (r * (x + n)) == (p * x) * r + n * (p * r). */
  lemma FactorStep(w: Width, p: nat, r: nat, x: nat, n: nat)
    ensures Mul(w, p, Mul(w, r, Xor(x, n))) == Xor(Mul(w, Mul(w, p, x), r), Mul(w, n, Mul(w, p, r)))
  {
    hide Mul, Xor;
    MulXor(w, r, x, n);
    MulXor(w, p, Mul(w, r, x), Mul(w, r, n));
    MulComm(w, r, x);
    MulAssoc(w, p, x, r);
    MulAssoc(w, p, r, n);
    MulComm(w, Mul(w, p, r), n);
  }

  /** A functional that kills 1, x, .., x^i kills every shifted root polynomial of degree up to i. */
  lemma {:induction false} KillsRoots(w: Width, u: Vec, nodes: Vec, i: nat, d: nat, j: nat)
    requires |u| == |nodes| && j <= |nodes| && d + j <= i
    requires forall c :: 0 <= c <= i ==> Dot(w, u, Column(w, nodes, c)) == 0
    ensures Dot(w, u, Shifted(w, nodes, d, j)) == 0
    decreases j
  {
    hide Mul, Xor, Dot, Shifted, Column;
    if j == 0 {
      ShiftedStart(w, nodes, d);
    } else {
      KillsRoots(w, u, nodes, i, d + 1, j - 1);
      KillsRoots(w, u, nodes, i, d, j - 1);
      ShiftedStep(w, nodes, d, j - 1);
      var f, g := Shifted(w, nodes, d + 1, j - 1), Shifted(w, nodes, d, j - 1);
      DotAdd(w, u, f, Scale(w, nodes[j - 1], g));
      DotScale(w, u, nodes[j - 1], g);
      MulZero(w, nodes[j - 1]);
      XorZero(0);
    }
  }

  /**
    No zero pivot: a functional on the first i + 1 distinct nodes, with a nonzero weight on
    the last of them, cannot kill all of 1, x, .., x^i.
   */
  lemma PivotNonzero(w: Width, u: Vec, nodes: Vec, i: nat)
    requires |u| == |nodes| && i < |nodes|
    requires InRange(w, nodes) && InRange(w, u) && Distinct(nodes)
    requires u[i] != 0 && forall t :: i < t < |u| ==> u[t] == 0
    requires forall c :: 0 <= c < i ==> Dot(w, u, Column(w, nodes, c)) == 0
    ensures Dot(w, u, Column(w, nodes, i)) != 0
  {
    if Dot(w, u, Column(w, nodes, i)) == 0 {
      hide Mul, Xor, Dot, Roots;
      KillsRoots(w, u, nodes, i, 0, i);
      var v := Shifted(w, nodes, 0, i);
      forall t | 0 <= t < |u| && t != i ensures Mul(w, u[t], v[t]) == 0 {
        if t < i {
          RootsVanish(w, nodes, t, i);
          MulZero(w, Pow(w, nodes[t], 0));
          MulZero(w, u[t]);
        } else {
          MulZero(w, v[t]);
        }
      }
      DotSingle(w, u, v, i);
      RootsNonzero(w, nodes, nodes[i], i);
      RootsRange(w, nodes, nodes[i], i);
      MulOne(w, Roots(w, nodes, nodes[i], i));
      NoZeroDivisors(w, u[i], v[i]);
      assert false;
    }
  }

  // ----- Exchanging the order of summation -----

  /** The code word of data d: its value at every node. */
  function Evals(w: Width, nodes: Vec, d: Vec): (r: Vec)
    ensures |r| == |nodes|
  {
    seq(|nodes|, t requires 0 <= t < |nodes| => Dot(w, Powers(w, nodes[t], |d|), d))
  }

  /** The values of the functional u on the monomials below x^k. */
  function OnMonomials(w: Width, u: Vec, nodes: Vec, k: nat): (r: Vec)
    requires |u| == |nodes|
    ensures |r| == k
  {
    seq(k, c requires 0 <= c < k => Dot(w, u, Column(w, nodes, c)))
  }

  /** Applying u to a code word is applying its monomial values to the data. */
  lemma {:induction false} Exchange(w: Width, u: Vec, nodes: Vec, d: Vec)
    requires |u| == |nodes|
    ensures Dot(w, u, Evals(w, nodes, d)) == Dot(w, OnMonomials(w, u, nodes, |d|), d)
    decreases |d|
  {
    if |d| == 0 {
      forall t | 0 <= t < |u| ensures Mul(w, u[t], Evals(w, nodes, d)[t]) == 0 {
        MulZero(w, u[t]);
      }
      DotVanishes(w, u, Evals(w, nodes, d));
    } else {
      var n := |d| - 1;
      var d' := d[..n];
      Exchange(w, u, nodes, d');
      EvalsStep(w, nodes, d);
      hide Mul, Xor, Pow;
      DotAdd(w, u, Evals(w, nodes, d'), Scale(w, d[n], Column(w, nodes, n)));
      DotScale(w, u, d[n], Column(w, nodes, n));
      MulComm(w, d[n], Dot(w, u, Column(w, nodes, n)));
      assert OnMonomials(w, u, nodes, n + 1)[..n] == OnMonomials(w, u, nodes, n);
    }
  }

  lemma EvalsStep(w: Width, nodes: Vec, d: Vec)
    requires |d| >= 1
    ensures var n := |d| - 1;
      Evals(w, nodes, d) == Add(Evals(w, nodes, d[..n]), Scale(w, d[n], Column(w, nodes, n)))
  {
    var n := |d| - 1;
    forall t | 0 <= t < |nodes|
      ensures Evals(w, nodes, d)[t] == Add(Evals(w, nodes, d[..n]), Scale(w, d[n], Column(w, nodes, n)))[t]
    {
      hide Mul, Xor, Pow;
      assert Powers(w, nodes[t], n + 1)[..n] == Powers(w, nodes[t], n);
      MulComm(w, Pow(w, nodes[t], n), d[n]);
    }
  }

  /** The unit vector in direction i. */
  function Unit(k: nat, i: nat): (r: Vec)
    ensures |r| == k
  {
    seq(k, c => if c == i then 1 else 0)
  }

  lemma DotUnit(w: Width, d: Vec, i: nat)
    requires i < |d| && InRange(w, d)
    ensures Dot(w, Unit(|d|, i), d) == d[i]
  {
    var u := Unit(|d|, i);
    hide Mul, Dot;
    forall t | 0 <= t < |d| && t != i ensures Mul(w, u[t], d[t]) == 0 {
      MulZero(w, d[t]);
    }
    DotSingle(w, u, d, i);
    MulOne(w, d[i]);
  }

  /** The rows of a left inverse decode: u times the code word of d is the datum u stands for. */
  lemma Decodes(w: Width, u: Vec, nodes: Vec, d: Vec, i: nat)
    requires |u| == |nodes| && i < |d| && InRange(w, d)
    requires OnMonomials(w, u, nodes, |d|) == Unit(|d|, i)
    ensures Dot(w, u, Evals(w, nodes, d)) == d[i]
  {
    Exchange(w, u, nodes, d);
    DotUnit(w, d, i);
  }
}
