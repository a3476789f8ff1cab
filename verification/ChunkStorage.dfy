/**
  chunk_storage of kernel/vds_data/chunk_storage.cpp: replicas over 16-bit cells, with one
  cached generator per replica number.
 */
module ChunkStorage {
  import opened Arithmetic
  import opened Bytes
  import opened Galois
  import opened Vectors
  import opened GfMath
  import opened ChunkCodec
  import opened AnyK
  import opened Chunk
  import opened Matrix
  import opened Serializer
  import opened Wrappers

  type Horcruxes = map<nat, seq<Byte>>

  /** Replicas of one block under pairwise different 16-bit numbers, as many as are needed. */
  ghost predicate AreReplicas(k: nat, horcruxes: Horcruxes, data: seq<Byte>)
    requires k >= 1
  {
    && |data| < 0x1_0000_0000_0000_0000 && PaddingFits(W16, k, |data|)
    && |horcruxes| == k
    && forall n :: n in horcruxes ==> n < 0x1_0000 && horcruxes[n] == Replica(W16, k, n, data)
  }

  /** The padding word is wide enough for every block exactly when a group has at most 65536 bytes. */
  lemma PaddingAlwaysFits(w: Width, k: nat)
    requires k >= 1
    ensures (forall size: nat :: PaddingFits(w, k, size)) <==> GroupSize(w, k) <= 0x1_0000
  {
    var g := GroupSize(w, k);
    if g > 0x1_0000 {
      DivMod(0x1_0000, g, 0, 0x1_0000);
      assert !PaddingFits(w, k, 0x1_0000);
    } else {
      forall size: nat ensures PaddingFits(w, k, size) {
        assert size % g < g;
      }
    }
  }

  /** The numbers and the contents of the replicas, in one order. */
  ghost predicate Listed(horcruxes: Horcruxes, replicas: seq<nat>, datas: seq<seq<Byte>>) {
    && |replicas| == |datas|
    && Distinct(replicas)
    && forall j :: 0 <= j < |replicas| ==> replicas[j] in horcruxes && datas[j] == horcruxes[replicas[j]]
  }

  /** The loop over the map, which visits the replicas in an arbitrary order. */
  method Collect(horcruxes: Horcruxes) returns (replicas: Option<seq<nat>>, datas: seq<seq<Byte>>)
    requires |horcruxes| >= 1
    ensures replicas.None? ==> exists m, n :: m in horcruxes && n in horcruxes && |horcruxes[m]| != |horcruxes[n]|
    ensures replicas.Some? ==>
              Listed(horcruxes, replicas.value, datas) && |datas| == |horcruxes|
              && forall m, n :: m in horcruxes && n in horcruxes ==> |horcruxes[m]| == |horcruxes[n]|
  {
    var numbers: seq<nat> := [];
    datas := [];
    var left := horcruxes.Keys;
    assert left != {};
    var begin :| begin in left;
    var size := |horcruxes[begin]|;
    while left != {}
      invariant left <= horcruxes.Keys && |numbers| + |left| == |horcruxes|
      invariant Listed(horcruxes, numbers, datas)
      invariant forall n :: n in horcruxes <==> n in left || n in numbers
      invariant forall n :: n in numbers ==> n !in left
      invariant forall n :: n in numbers ==> |horcruxes[n]| == size
      decreases |left|
    {
      var p :| p in left;
      if size != |horcruxes[p]| {
        return None, datas;
      }
      numbers := numbers + [p];
      datas := datas + [horcruxes[p]];
      left := left - {p};
    }
    replicas := Some(numbers);
  }

  class Storage {
    const math: Math
    const minHorcrux: nat
    var generators: map<nat, ChunkGenerator>

    ghost function Footprint(): set<object>
      reads this
    {
      {this, math.log2value, math.value2log} + set n | n in generators :: generators[n].multipliers
    }

    ghost predicate Valid()
      reads this, Footprint()
    {
      && math.Valid() && math.w == W16 && 1 <= minHorcrux < 0x1_0000
      && forall n :: n in generators ==>
           && generators[n].math == math && generators[n].k == minHorcrux && generators[n].n == n
           && generators[n].multipliers in Footprint() && generators[n].Valid()
    }

    constructor (math: Math, minHorcrux: nat)
      requires math.Valid() && math.w == W16 && 1 <= minHorcrux < 0x1_0000
      ensures Valid() && this.minHorcrux == minHorcrux && generators == map[]
    {
      this.math, this.minHorcrux := math, minHorcrux;
      generators := map[];
    }

    /** The replica of a block; the cache of generators does not change the result. */
    method GenerateReplica(replica: nat, data: seq<Byte>) returns (r: Result<seq<Byte>>)
      requires Valid() && replica < 0x1_0000
      modifies this
      ensures Valid()
      ensures r.Ok? <==> PaddingFits(W16, minHorcrux, |data|)
      ensures r.Ok? ==> r.value == Replica(W16, minHorcrux, replica, data)
      ensures generators.Keys == old(generators.Keys) + {replica}
    {
      hide TablesHold, Body, Padding, Powers;
      var generator: ChunkGenerator;
      if replica !in generators {
        generator := new ChunkGenerator(math, minHorcrux, replica);
        generators := generators[replica := generator];
      } else {
        generator := generators[replica];
      }
      assert generator.Valid();
      var s := new BinarySerializer();
      var written := generator.Write(s, data, true);
      if written.Err? {
        return Err(written.message);
      }
      r := Ok(s.data);
    }

    /**
      Any minHorcrux replicas under different numbers restore the block, in whatever order the map
      lists them, unless the matrix is too large. The source has no test for that.
     */
    method RestoreData(horcruxes: Horcruxes) returns (r: Result<seq<Byte>>)
      requires Valid()
      requires forall n :: n in horcruxes ==> n < 0x1_0000
      ensures |horcruxes| != minHorcrux ==> r.Err?
      ensures (exists m, n :: m in horcruxes && n in horcruxes && |horcruxes[m]| != |horcruxes[n]|) ==> r.Err?
      ensures minHorcrux > MAX_K ==> r.Err?
      ensures minHorcrux <= MAX_K ==> forall data :: AreReplicas(minHorcrux, horcruxes, data) ==> r == Ok(data)
    {
      hide TablesHold, Inverts, Replica, Restored, PaddingFits;
      if minHorcrux != |horcruxes| {
        return Err("Error at restoring data");
      }
      var replicas, datas := Collect(horcruxes);
      if replicas.None? {
        var m, n :| m in horcruxes && n in horcruxes && |horcruxes[m]| != |horcruxes[n]|;
        forall data | AreReplicas(minHorcrux, horcruxes, data) ensures false {
          ReplicaShape(W16, minHorcrux, m, data);
          ReplicaShape(W16, minHorcrux, n, data);
        }
        return Err("Error at restoring data");
      }
      if minHorcrux > MAX_K {
        return Err("Matrix too large");
      }
      var restore := new ChunkRestore(math, minHorcrux, replicas.value);
      assert Inverts(W16, replicas.value, RowsOf(restore.multipliers));
      r := restore.Restore(datas);
      forall data | AreReplicas(minHorcrux, horcruxes, data) ensures r == Ok(data) {
        assert datas == Replicas(W16, replicas.value, data);
        AnyKRestores(W16, replicas.value, RowsOf(restore.multipliers), data);
      }
    }
  }
}
