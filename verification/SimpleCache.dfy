/**
  simple_cache of kernel/vds_core/simple_cache.h: a list in most-recent-use order that drops
  a batch of entries from its end when it grows too long.
 */
module SimpleCache {
  import opened Collections
  import opened Wrappers

  type Entries<K, V> = seq<(K, V)>

  /** size_t */
  type Count = x: nat | x < 0x1_0000_0000_0000_0000

  /** Both counts are template arguments; the program uses a tenth of max for remove. */
  datatype Limits = Limits(max: Count, remove: Count)

  /** max_count - remove_count, which wraps around when more is to be removed than there may be. */
  function Kept(l: Limits): Count {
    if l.remove <= l.max then l.max - l.remove else 0x1_0000_0000_0000_0000 - (l.remove - l.max)
  }

  /** The largest size a list can have. */
  function Bound(l: Limits): Count {
    if l.remove <= l.max then l.max else Kept(l)
  }

  // ----- One operation -----

  /** The position of a key, or the length of the list. */
  function Position<K(==), V>(data: Entries<K, V>, key: K): (i: nat)
    ensures i <= |data| && (i < |data| ==> data[i].0 == key)
    ensures forall j :: 0 <= j < i ==> data[j].0 != key
  {
    if |data| == 0 || data[0].0 == key then 0 else 1 + Position(data[1..], key)
  }

  predicate Has<K(==), V>(data: Entries<K, V>, key: K) {
    Position(data, key) < |data|
  }

  function Without<K(==), V>(data: Entries<K, V>, key: K): Entries<K, V> {
    if |data| == 0 then []
    else (if data[0].0 == key then [] else [data[0]]) + Without(data[1..], key)
  }

  /** An entry is spliced to the front. */
  function ToFront<K, V>(data: Entries<K, V>, i: nat): Entries<K, V>
    requires i < |data|
  {
    [data[i]] + data[..i] + data[i + 1..]
  }

  function Evict<K, V>(l: Limits, data: Entries<K, V>): Entries<K, V> {
    if |data| > l.max && |data| > Kept(l) then data[..Kept(l)] else data
  }

  datatype Op<K, V> = Find(key: K) | Set(key: K, value: V) | Remove(key: K)

  function Apply<K(==), V>(l: Limits, data: Entries<K, V>, op: Op<K, V>): Entries<K, V> {
    var i := Position(data, op.key);
    match op
    case Find(_) => if i < |data| then ToFront(data, i) else data
    case Set(k, v) =>
      if i < |data| then ToFront(data, i)[0 := (k, v)]
      else Evict(l, [(k, v)] + data)
    case Remove(k) => Without(data, k)
  }

  function RunFrom<K(==), V>(l: Limits, data: Entries<K, V>, ops: seq<Op<K, V>>): Entries<K, V> {
    if |ops| == 0 then data else Apply(l, RunFrom(l, data, ops[..|ops| - 1]), ops[|ops| - 1])
  }

  function Run<K(==), V>(l: Limits, ops: seq<Op<K, V>>): Entries<K, V> {
    RunFrom(l, [], ops)
  }

  // ----- The history -----

  predicate Names<K(==), V>(op: Op<K, V>, key: K) {
    op.key == key && !op.Remove?
  }

  /** One more than the index of the last lookup or assignment of a key; 0 if there is none. */
  function LastUse<K(==), V>(ops: seq<Op<K, V>>, key: K): (t: nat)
    ensures t <= |ops|
  {
    if |ops| == 0 then 0
    else if Names(ops[|ops| - 1], key) then |ops|
    else LastUse(ops[..|ops| - 1], key)
  }

  /** The value a key has now: the last one set for it, unless it was removed since. */
  function LastValue<K(==), V>(ops: seq<Op<K, V>>, key: K): Option<V> {
    if |ops| == 0 then None
    else
      var op := ops[|ops| - 1];
      if op.key == key && op.Set? then Some(op.value)
      else if op.key == key && op.Remove? then None
      else LastValue(ops[..|ops| - 1], key)
  }

  ghost predicate Distinct<K, V>(data: Entries<K, V>) {
    forall i, j :: 0 <= i < j < |data| ==> data[i].0 != data[j].0
  }

  /** What the list says about the history. */
  ghost predicate Agrees<K, V>(l: Limits, ops: seq<Op<K, V>>, data: Entries<K, V>) {
    && Distinct(data)
    && |data| <= Bound(l)
    && (forall i, j :: 0 <= i < j < |data| ==> LastUse(ops, data[i].0) > LastUse(ops, data[j].0))
    && (forall i :: 0 <= i < |data| ==> LastValue(ops, data[i].0) == Some(data[i].1))
  }

  lemma {:induction false} WithoutAbsent<K, V>(data: Entries<K, V>, key: K)
    requires forall j :: 0 <= j < |data| ==> data[j].0 != key
    ensures Without(data, key) == data
  {
    if |data| > 0 {
      WithoutAbsent(data[1..], key);
    }
  }

  lemma {:induction false} WithoutKeeps<K, V>(data: Entries<K, V>, key: K)
    requires Distinct(data)
    ensures var p := Position(data, key);
            Without(data, key) == if p < |data| then data[..p] + data[p + 1..] else data
  {
    var p := Position(data, key);
    if p == |data| {
      WithoutAbsent(data, key);
    } else if p == 0 {
      WithoutAbsent(data[1..], key);
      assert data[..0] + data[1..] == data[1..];
    } else {
      var rest := data[1..];
      assert Distinct(rest) by {
        assert forall i :: 0 <= i < |rest| ==> rest[i] == data[i + 1];
      }
      assert Position(rest, key) == p - 1;
      WithoutKeeps(rest, key);
      hide Position, Without;
      assert data[..p] == [data[0]] + rest[..p - 1] && data[p + 1..] == rest[p..];
    }
  }

  /** Where an entry of the list after an operation comes from. */
  function Source<K(==), V>(data: Entries<K, V>, op: Op<K, V>, i: nat): int {
    var p := Position(data, op.key);
    match op
    case Find(_) => if p == |data| || i > p then i else if i == 0 then p else i - 1
    case Set(_, _) => if p == |data| then i - 1 else if i > p then i else if i == 0 then p else i - 1
    case Remove(_) => if i < p then i else i + 1
  }

  lemma Sources<K, V>(l: Limits, data: Entries<K, V>, op: Op<K, V>, i: nat)
    requires Distinct(data) && i < |Apply(l, data, op)|
    ensures var after, s := Apply(l, data, op), Source(data, op, i);
      && (-1 <= s < |data|)
      && (s == -1 ==> op.Set? && i == 0 && !Has(data, op.key) && after[i] == (op.key, op.value))
      && (s >= 0 ==> after[i].0 == data[s].0)
      && (s >= 0 && !(op.Set? && op.key == data[s].0) ==> after[i] == data[s])
      && (s >= 0 && op.Set? && op.key == data[s].0 ==> after[i].1 == op.value)
      && (s >= 0 && !op.Remove? && op.key == data[s].0 ==> i == 0)
      && (s >= 0 && op.Remove? ==> op.key != data[s].0)
  {
    if op.Remove? {
      WithoutKeeps(data, op.key);
    }
  }

  /** Entries keep their order, except that the entry named by the operation comes first. */
  lemma SourcesInOrder<K, V>(l: Limits, data: Entries<K, V>, op: Op<K, V>, i: nat, j: nat)
    requires Distinct(data) && i < j < |Apply(l, data, op)|
    ensures var s, t := Source(data, op, i), Source(data, op, j);
      && t >= 0 && s != t && (s > t ==> i == 0 && !op.Remove? && data[s].0 == op.key)
  {
    Sources(l, data, op, i);
    Sources(l, data, op, j);
  }

  lemma ApplyAgrees<K, V>(l: Limits, ops: seq<Op<K, V>>, data: Entries<K, V>, op: Op<K, V>)
    requires Agrees(l, ops, data)
    ensures Agrees(l, ops + [op], Apply(l, data, op))
  {
    var after, all := Apply(l, data, op), ops + [op];
    hide Apply, LastUse, LastValue, Bound;
    forall i | 0 <= i < |after| ensures LastValue(all, after[i].0) == Some(after[i].1) {
      ValueAgrees(l, ops, data, op, i);
    }
    forall i, j | 0 <= i < j < |after|
      ensures after[i].0 != after[j].0 && LastUse(all, after[i].0) > LastUse(all, after[j].0)
    {
      OrderAgrees(l, ops, data, op, i, j);
    }
    SizeBound(l, data, op);
  }

  lemma ValueAgrees<K, V>(l: Limits, ops: seq<Op<K, V>>, data: Entries<K, V>, op: Op<K, V>, i: nat)
    requires Agrees(l, ops, data) && i < |Apply(l, data, op)|
    ensures LastValue(ops + [op], Apply(l, data, op)[i].0) == Some(Apply(l, data, op)[i].1)
  {
    assert (ops + [op])[..|ops|] == ops;
    Sources(l, data, op, i);
    hide Apply, Source, Bound, LastUse;
  }

  lemma OrderAgrees<K, V>(l: Limits, ops: seq<Op<K, V>>, data: Entries<K, V>, op: Op<K, V>, i: nat, j: nat)
    requires Agrees(l, ops, data) && i < j < |Apply(l, data, op)|
    ensures var x, y := Apply(l, data, op)[i].0, Apply(l, data, op)[j].0;
            x != y && LastUse(ops + [op], x) > LastUse(ops + [op], y)
  {
    assert (ops + [op])[..|ops|] == ops;
    Sources(l, data, op, i);
    Sources(l, data, op, j);
    SourcesInOrder(l, data, op, i, j);
    hide Apply, Source, Bound, LastValue;
  }

  lemma SizeBound<K, V>(l: Limits, data: Entries<K, V>, op: Op<K, V>)
    requires |data| <= Bound(l) && Distinct(data)
    ensures |Apply(l, data, op)| <= Bound(l)
  {
    if op.Remove? {
      WithoutKeeps(data, op.key);
    }
  }

  /** After any operations: distinct keys, bounded size, most recent use first, the last value set for every key. */
  lemma {:induction false} RunAgrees<K, V>(l: Limits, ops: seq<Op<K, V>>)
    ensures Agrees(l, ops, Run(l, ops))
  {
    if |ops| > 0 {
      var n := |ops| - 1;
      RunAgrees(l, ops[..n]);
      ApplyAgrees(l, ops[..n], Run(l, ops[..n]), ops[n]);
      assert ops[..n] + [ops[n]] == ops;
    }
  }

  /** Assignments of the keys below n, in order. */
  function FirstKeys(n: nat): (ops: seq<Op<nat, nat>>)
    ensures |ops| == n
  {
    if n == 0 then [] else FirstKeys(n - 1) + [Set(n - 1, 0)]
  }

  lemma {:induction false} NothingEvicted(l: Limits, n: nat)
    requires n <= Bound(l)
    ensures var data := Run(l, FirstKeys(n));
            |data| == n && forall i :: 0 <= i < n ==> data[i].0 < n
  {
    if n > 0 {
      NothingEvicted(l, n - 1);
      assert FirstKeys(n)[..n - 1] == FirstKeys(n - 1);
      assert !Has(Run(l, FirstKeys(n - 1)), n - 1);
    }
  }

  /** Over all runs Bound is the least bound of the size, with the subtraction in 64 bits. */
  lemma BoundIsExact(l: Limits, bound: nat)
    ensures (forall ops: seq<Op<nat, nat>> :: |Run(l, ops)| <= bound) <==> Bound(l) <= bound
  {
    if Bound(l) <= bound {
      forall ops: seq<Op<nat, nat>> ensures |Run(l, ops)| <= bound {
        RunAgrees(l, ops);
      }
    } else {
      NothingEvicted(l, Bound(l));
      assert |Run(l, FirstKeys(Bound(l)))| > bound;
    }
  }

  /** The size stays within max over all runs if and only if a batch is not larger than that. */
  lemma BoundedIff(l: Limits)
    ensures (forall ops: seq<Op<nat, nat>> :: |Run(l, ops)| <= l.max) <==> l.remove <= l.max
  {
    BoundIsExact(l, l.max);
  }

  // ----- What is dropped and what is kept -----

  /** A key that disappears was removed, or is past the entries a full list keeps. */
  lemma Dropped<K, V>(l: Limits, data: Entries<K, V>, op: Op<K, V>, key: K)
    requires Distinct(data) && |data| <= Bound(l) && Has(data, key) && !Has(Apply(l, data, op), key)
    ensures op == Remove(key) ||
            (op.Set? && !Has(data, op.key) && |data| == Bound(l) && Position(data, key) + 1 >= Kept(l))
  {
    if op.Remove? {
      RemoveKeepsOthers(data, op.key, key);
    } else if Has(data, op.key) {
      UseKeepsAll(l, data, op, key);
    } else if op.Set? {
      PushKeepsFront(l, data, op, key);
    }
  }

  lemma RemoveKeepsOthers<K, V>(data: Entries<K, V>, removed: K, key: K)
    requires Distinct(data) && Has(data, key)
    ensures removed != key ==> Has(Without(data, removed), key)
  {
    WithoutKeeps(data, removed);
    hide Without;
    var i, p := Position(data, key), Position(data, removed);
    if removed != key {
      Found(Without(data, removed), if i < p then i else i - 1, key);
    }
  }

  lemma UseKeepsAll<K, V>(l: Limits, data: Entries<K, V>, op: Op<K, V>, key: K)
    requires !op.Remove? && Has(data, op.key) && Has(data, key)
    ensures Has(Apply(l, data, op), key)
  {
    var i, p := Position(data, key), Position(data, op.key);
    hide Position;
    FrontKeepsAll(data, p, i);
    Found(Apply(l, data, op), if i == p then 0 else if i < p then i + 1 else i, key);
  }

  lemma PushKeepsFront<K, V>(l: Limits, data: Entries<K, V>, op: Op<K, V>, key: K)
    requires op.Set? && !Has(data, op.key) && |data| <= Bound(l) && Has(data, key)
    ensures Has(Apply(l, data, op), key) || (|data| == Bound(l) && Position(data, key) + 1 >= Kept(l))
  {
    var i, pushed, kept := Position(data, key), [(op.key, op.value)] + data, Kept(l);
    assert Apply(l, data, op) == Evict(l, pushed) && pushed[i + 1] == data[i] && |pushed| == |data| + 1;
    hide *;
    EvictCases(l, pushed);
    FoundInFront(pushed, i + 1, kept, key);
  }

  lemma FoundInFront<K, V>(data: Entries<K, V>, i: nat, n: nat, key: K)
    requires i < |data| && data[i].0 == key
    ensures Has(data, key)
    ensures i < n <= |data| ==> Has(data[..n], key)
  {
    Found(data, i, key);
    if i < n <= |data| {
      Found(data[..n], i, key);
    }
    hide *;
  }

  lemma EvictCases<K, V>(l: Limits, pushed: Entries<K, V>)
    requires |pushed| <= Bound(l) + 1
    ensures Evict(l, pushed) == pushed || (|pushed| == Bound(l) + 1 && Evict(l, pushed) == pushed[..Kept(l)])
  {
  }

  lemma FrontKeepsAll<K, V>(data: Entries<K, V>, p: nat, i: nat)
    requires p < |data| && i < |data|
    ensures ToFront(data, p)[if i == p then 0 else if i < p then i + 1 else i] == data[i]
  {
  }

  lemma Found<K, V>(data: Entries<K, V>, i: nat, key: K)
    requires i < |data| && data[i].0 == key
    ensures Has(data, key)
  {
  }

  /** A batch eviction drops only keys used less recently than every key it keeps. */
  lemma EvictsOldest<K, V>(l: Limits, ops: seq<Op<K, V>>, op: Op<K, V>, dropped: K, kept: K)
    requires op != Remove(dropped)
    requires Has(Run(l, ops), dropped) && !Has(Run(l, ops + [op]), dropped) && Has(Run(l, ops + [op]), kept)
    ensures LastUse(ops + [op], kept) > LastUse(ops + [op], dropped)
  {
    var all, data := ops + [op], Run(l, ops);
    assert all[..|all| - 1] == ops;
    RunAgrees(l, ops);
    Dropped(l, data, op, dropped);
    var i := Position(Run(l, all), kept);
    Sources(l, data, op, i);
    if i > 0 {
      assert i - 1 < Position(data, dropped);
      assert LastUse(ops, data[i - 1].0) > LastUse(ops, dropped);
    }
  }

  /** The new entry itself survives its own eviction unless a batch empties the whole list. */
  lemma SetKeepsIff<K, V>(l: Limits, data: Entries<K, V>, key: K, value: V)
    requires |data| <= Bound(l)
    ensures Has(Apply(l, data, Set(key, value)), key) <==>
            Has(data, key) || |data| < l.max || l.remove != l.max
  {
    var after := Apply(l, data, Set(key, value));
    assert |after| > 0 ==> after[0].0 == key;
  }

  /** The keys named by lookups and assignments. */
  ghost function Named<K, V>(ops: seq<Op<K, V>>): set<K> {
    set op | op in ops && !op.Remove? :: op.key
  }

  ghost function Ahead<K, V>(data: Entries<K, V>, key: K): set<K> {
    set i | 0 <= i < Position(data, key) :: data[i].0
  }

  lemma {:induction false} AheadSize<K, V>(data: Entries<K, V>, n: nat)
    requires Distinct(data) && n <= |data|
    ensures |set i | 0 <= i < n :: data[i].0| == n
  {
    if n > 0 {
      AheadSize(data, n - 1);
      var before := set i | 0 <= i < n - 1 :: data[i].0;
      assert (set i | 0 <= i < n :: data[i].0) == before + {data[n - 1].0};
      assert data[n - 1].0 !in before;
    }
  }

  /**
    A key stays as long as fewer other keys than a batch leaves have been named since: with
    the keys ahead of it, they must be fewer than Kept.
   */
  lemma {:induction false} StaysWhileRecent<K, V>(l: Limits, data: Entries<K, V>, ops: seq<Op<K, V>>, key: K)
    requires Distinct(data) && |data| <= Bound(l) && Has(data, key)
    requires forall op :: op in ops ==> op.key != key
    requires |Ahead(data, key) + Named(ops)| < Kept(l)
    ensures var after := RunFrom(l, data, ops);
      && Distinct(after) && |after| <= Bound(l) && Has(after, key) && Ahead(after, key) <= Ahead(data, key) + Named(ops)
  {
    if |ops| > 0 {
      var n := |ops| - 1;
      var before, op := RunFrom(l, data, ops[..n]), ops[n];
      SubsetSize(Ahead(data, key) + Named(ops[..n]), Ahead(data, key) + Named(ops));
      StaysWhileRecent(l, data, ops[..n], key);
      assert op in ops && op.key != key;
      AheadStep(l, before, op, key, Ahead(data, key) + Named(ops));
    }
  }

  lemma AheadStep<K, V>(l: Limits, data: Entries<K, V>, op: Op<K, V>, key: K, others: set<K>)
    requires Distinct(data) && |data| <= Bound(l) && Has(data, key) && op.key != key
    requires Ahead(data, key) <= others && (!op.Remove? ==> op.key in others) && |others| < Kept(l)
    ensures var after := Apply(l, data, op);
            Distinct(after) && |after| <= Bound(l) && Has(after, key) && Ahead(after, key) <= others
  {
    var after, p := Apply(l, data, op), Position(data, key);
    SizeBound(l, data, op);
    forall i, j | 0 <= i < j < |after| ensures after[i].0 != after[j].0 {
      Sources(l, data, op, i);
      Sources(l, data, op, j);
      SourcesInOrder(l, data, op, i, j);
    }
    AheadSize(data, p);
    if op.Set? && !Has(data, op.key) {
      assert op.key !in Ahead(data, key);
      SubsetSize(Ahead(data, key) + {op.key}, others);
    }
    if !Has(after, key) {
      Dropped(l, data, op, key);
    }
    var q := Position(after, key);
    Sources(l, data, op, q);
    forall i | 0 <= i < q ensures after[i].0 in others {
      Sources(l, data, op, i);
      SourcesInOrder(l, data, op, i, q);
    }
  }

  /** One round of the loop in remove. */
  lemma WithoutStep<K, V>(data: Entries<K, V>, i: nat, key: K)
    requires i < |data|
    ensures data[i].0 == key ==>
      var rest := data[..i] + data[i + 1..];
      rest[..i] + Without(rest[i..], key) == data[..i] + Without(data[i..], key)
    ensures data[i].0 != key ==>
      data[..i + 1] + Without(data[i + 1..], key) == data[..i] + Without(data[i..], key)
  {
    var rest := data[..i] + data[i + 1..];
    assert data[i..][1..] == data[i + 1..] == rest[i..] && rest[..i] == data[..i];
    assert data[..i + 1] == data[..i] + [data[i]];
  }

  // ----- The class -----

  class Cache<K(==), V> {
    const limits: Limits
    var data: Entries<K, V>

    constructor (max: Count, remove: Count)
      ensures limits == Limits(max, remove) && data == []
    {
      limits, data := Limits(max, remove), [];
    }

    /** find: a hit is spliced to the front of the list. */
    method Find(key: K) returns (found: bool)
      modifies this
      ensures found <==> Has(old(data), key)
      ensures data == Apply(limits, old(data), Op.Find(key))
      ensures found ==> |data| > 0 && data[0] == old(data)[Position(old(data), key)]
    {
      var p := 0;
      while p < |data|
        invariant p <= |data| && data == old(data)
        invariant forall j :: 0 <= j < p ==> data[j].0 != key
      {
        if data[p].0 == key {
          data := [data[p]] + data[..p] + data[p + 1..];
          return true;
        }
        p := p + 1;
      }
      found := false;
    }

    /** set: a new entry may evict a batch from the end of the list. */
    method Set(key: K, value: V)
      modifies this
      ensures data == Apply(limits, old(data), Op.Set(key, value))
    {
      var found := Find(key);
      if !found {
        data := [(key, value)] + data;
        if |data| > limits.max {
          ghost var pushed := data;
          while |data| > Kept(limits)
            invariant |data| <= |pushed| && data == pushed[..|data|]
            invariant |data| == |pushed| || |data| >= Kept(limits)
          {
            data := data[..|data| - 1];
          }
        }
      } else {
        data := data[0 := (key, value)];
      }
    }

    /** remove: remove_if over the whole list. */
    method Remove(key: K)
      modifies this
      ensures data == Apply(limits, old(data), Op.Remove(key))
    {
      hide Position;
      var i := 0;
      assert data[..0] + Without(data[0..], key) == Without(data, key) by { assert data[0..] == data; }
      while i < |data|
        invariant i <= |data|
        invariant data[..i] + Without(data[i..], key) == Without(old(data), key)
        decreases |data| - i
      {
        WithoutStep(data, i, key);
        if data[i].0 == key {
          data := data[..i] + data[i + 1..];
        } else {
          i := i + 1;
        }
      }
      assert data[..i] == data && Without(data[i..], key) == [];
    }
  }
}
