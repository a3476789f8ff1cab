/**
  The classes gf_math<uint8_t> and gf_math<uint16_t> of kernel/vds_data/gf.h: logarithm and
  antilogarithm tables, filled once by stepping through the powers of 2, through which all
  later multiplications and divisions go.
 */
module GfMath {
  import opened Gf2Poly
  import opened Bytes
  import opened Galois
  import opened Cyclic
  import Gf

  /** The tables hold the powers of 2 and their exponents. */
  ghost predicate TablesHold(w: Width, log2value: seq<nat>, value2log: seq<nat>) {
    && |log2value| == |value2log| == Size(w)
    && (forall i :: 0 <= i < Order(w) ==> log2value[i] == XPow(w, i))
    && (forall i :: 0 <= i < Order(w) ==> 1 <= XPow(w, i) < Size(w) && value2log[XPow(w, i)] == i)
  }

  /** The two tables are inverse to each other on exponents and on all nonzero elements. */
  lemma TablesInverse(w: Width, log2value: seq<nat>, value2log: seq<nat>, a: nat)
    requires TablesHold(w, log2value, value2log)
    requires 1 <= a < Size(w)
    ensures value2log[a] < Order(w) && log2value[value2log[a]] == a
    ensures value2log[a] == Log(w, a)
    ensures 1 <= log2value[a - 1] < Size(w) && value2log[log2value[a - 1]] == a - 1
  {
    LogExists(w, a);
    LogUnique(w, a, value2log[a]);
  }

  /** The tables after the powers below 2^n have been entered. */
  ghost predicate Entered(w: Width, n: nat, log2value: seq<nat>, value2log: seq<nat>) {
    && |log2value| == |value2log| == Size(w)
    && n <= Order(w)
    && (forall i :: 0 <= i < n ==> log2value[i] == XPow(w, i))
    && (forall i :: 0 <= i < n ==> 1 <= XPow(w, i) < Size(w) && value2log[XPow(w, i)] == i)
    && (forall a :: 0 <= a < Size(w) && value2log[a] != 0 ==> exists i :: 0 <= i < n && XPow(w, i) == a)
  }

  /** The next power has not been met before, so its entry is still zero and may be written. */
  lemma EnterNext(w: Width, n: nat, log2value: seq<nat>, value2log: seq<nat>)
    requires Entered(w, n, log2value, value2log) && n < Order(w)
    ensures var a := XPow(w, n);
      1 <= a < Size(w) && value2log[a] == 0 && Entered(w, n + 1, log2value[n := a], value2log[a := n])
  {
    hide XPow;
    var a := XPow(w, n);
    XPowRange(w, n);
    PowNonzero(w, n);
    forall i | 0 <= i < n ensures XPow(w, i) != a {
      PowInjective(w, i, n);
    }
    var after := value2log[a := n];
    forall b | 0 <= b < Size(w) && after[b] != 0 ensures exists i :: 0 <= i < n + 1 && XPow(w, i) == b {
      if b == a {
        assert XPow(w, n) == b;
      } else {
        assert value2log[b] != 0;
      }
    }
  }

  lemma EnterFirst(w: Width, log2value: seq<nat>, value2log: seq<nat>)
    requires |log2value| == |value2log| == Size(w) && log2value[0] == 1
    requires forall a :: 0 <= a < Size(w) ==> value2log[a] == 0
    ensures Entered(w, 1, log2value, value2log)
  {
    FirstPowers(w);
  }

  /** The body of the constructors: the powers of 2 are entered one by one. */
  method FillTables(w: Width, log2value: array<nat>, value2log: array<nat>)
    requires log2value.Length == value2log.Length == Size(w) && log2value != value2log
    requires forall a :: 0 <= a < Size(w) ==> value2log[a] == 0
    modifies log2value, value2log
    ensures TablesHold(w, log2value[..], value2log[..])
  {
    var m := Bits(w);
    WidthFacts(w);
    hide XPow, Value, Gf.PolynomialBytes;
    log2value[0] := 1;
    value2log[1] := 0;
    EnterFirst(w, log2value[..], value2log[..]);

    var two: seq<Byte> := if w == W8 then [2] else [2, 0];
    Two(w, two);
    var k := two;
    FirstPowers(w);
    for log := 1 to Order(w)
      invariant |k| == Gf.ArraySize(m) && Value(k) == XPow(w, log)
      invariant log2value.Length == value2log.Length == Size(w)
      invariant Entered(w, log, log2value[..], value2log[..])
    {
      var value: nat := if w == W8 then k[0] else 0x100 * (k[1] as int) + k[0];
      TwoBytes(w, k);
      EnterNext(w, log, log2value[..], value2log[..]);
      log2value[log] := value;
      // The collision assertion of the source.
      assert 0 == value2log[value];
      value2log[value] := log;
      XPowRange(w, log);
      NextPower(w, log);
      k := Gf.Multiply(m, Poly(w), Gf.PolynomialBytes(m), k, two);
    }
  }

  lemma NextPower(w: Width, e: nat)
    ensures XPow(w, e + 1) == Reduce(Bits(w), Poly(w), Times(XPow(w, e), 2))
  {
    assert XPow(w, e + 1) == Galois.Mul(w, XPow(w, e), 2);
  }

  class Math {
    const w: Width
    const log2value: array<nat>
    const value2log: array<nat>

    ghost predicate Valid()
      reads log2value, value2log
    {
      TablesHold(w, log2value[..], value2log[..])
    }

    constructor (w: Width)
      ensures Valid() && this.w == w
      ensures fresh(log2value) && fresh(value2log)
    {
      this.w := w;
      log2value := new nat[Size(w)](i => 0);
      value2log := new nat[Size(w)](i => 0);
      new;
      FillTables(w, log2value, value2log);
    }

    function Mul(left: nat, right: nat): (r: nat)
      requires Valid() && left < Size(w) && right < Size(w)
      reads log2value, value2log
      ensures r == Galois.Mul(w, left, right)
    {
      LookupMul(w, log2value[..], value2log[..], left, right);
      if left == 0 || right == 0 then 0
      else
        var logLeft := value2log[left];
        var logRight := value2log[right];
        log2value[(logLeft + logRight) % Order(w)]
    }

    method Div(left: nat, right: nat) returns (r: nat)
      requires Valid() && left < Size(w) && right < Size(w)
      ensures r == Cyclic.Div(w, left, right) && r < Size(w)
    {
      if left == 0 || right == 0 {
        return 0;
      }
      TablesInverse(w, log2value[..], value2log[..], left);
      TablesInverse(w, log2value[..], value2log[..], right);
      ghost var start := value2log[left] as int - value2log[right] as int;
      var dif := value2log[left] as int - value2log[right] as int;
      while dif < 0
        invariant dif == start || (start < 0 && dif == start + Order(w))
      {
        dif := dif + Order(w);
      }
      LookupDiv(w, log2value[..], value2log[..], left, right, dif);
      r := log2value[dif % Order(w)];
    }

    function Add(left: nat, right: nat): nat {
      Xor(left, right)
    }

    function Sub(left: nat, right: nat): nat {
      Xor(left, right)
    }
  }

  /** Subtracting exponents, turned into the range of the table, divides. */
  lemma LookupDiv(w: Width, log2value: seq<nat>, value2log: seq<nat>, left: nat, right: nat, dif: nat)
    requires TablesHold(w, log2value, value2log)
    requires 1 <= left < Size(w) && 1 <= right < Size(w)
    requires dif == value2log[left] as int - value2log[right] as int
          || dif == value2log[left] as int - value2log[right] as int + Order(w) < Order(w)
    ensures value2log[left] < Order(w) && value2log[right] < Order(w)
    ensures dif % Order(w) < Order(w)
    ensures log2value[dif % Order(w)] == Cyclic.Div(w, left, right) < Size(w)
  {
    hide XPow;
    TablesInverse(w, log2value, value2log, left);
    TablesInverse(w, log2value, value2log, right);
    var i, j := value2log[left], value2log[right];
    assert dif < Order(w);
    assert (i + Order(w) - j) % Order(w) == dif by {
      if i >= j {
        assert i + Order(w) - j == Order(w) * 1 + dif;
      }
    }
    DivRange(w, left, right);
  }

  lemma TwoBytes(w: Width, k: seq<Byte>)
    requires |k| == Gf.ArraySize(Bits(w))
    ensures Value(k) == if w == W8 then k[0] else 0x100 * (k[1] as int) + k[0]
  {
    if w == W8 {
      assert k == [k[0]];
      Gf.ValueOfOne(k[0]);
    } else {
      assert k == [k[0], k[1]];
      Gf.ValueOfTwo(k[0], k[1]);
    }
  }

  lemma Two(w: Width, two: seq<Byte>)
    requires two == if w == W8 then [2] else [2, 0]
    ensures |two| == Gf.ArraySize(Bits(w)) && Value(two) == 2 < Pow2(Bits(w))
  {
    WidthFacts(w);
    TwoBytes(w, two);
  }

  lemma FirstPowers(w: Width)
    ensures XPow(w, 0) == 1 && XPow(w, 1) == 2
  {
    assert XPow(w, 1) == Galois.Mul(w, XPow(w, 0), 2);
    MulOne(w, 2);
  }

  /** A lookup through the tables is the product of polynomials. */
  lemma LookupMul(w: Width, log2value: seq<nat>, value2log: seq<nat>, left: nat, right: nat)
    requires TablesHold(w, log2value, value2log) && left < Size(w) && right < Size(w)
    ensures left == 0 || right == 0 ==> Galois.Mul(w, left, right) == 0
    ensures left != 0 && right != 0 ==>
              log2value[(value2log[left] + value2log[right]) % Order(w)] == Galois.Mul(w, left, right)
  {
    hide XPow, Galois.Mul;
    MulZero(w, left);
    MulZero(w, right);
    if left != 0 && right != 0 {
      TablesInverse(w, log2value, value2log, left);
      TablesInverse(w, log2value, value2log, right);
      XPowAdd(w, value2log[left], value2log[right]);
      PowMod(w, value2log[left] + value2log[right]);
    }
  }
}
