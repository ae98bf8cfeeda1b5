/**
 The bone of each bounds record (geometry/src/mesh.rs, `Extents`), told by the influences of the
 vertices that a batch draws.
 */
module MeshBones {
  import opened Words
  import opened StripStream
  import opened MeshBatches
  import opened MeshCompiler

  /** All the weight of a vertex. */
  function AllWeight(influences: seq<Influence>): nat {
    if influences == [] then 0 else AllWeight(Init(influences)) + Last(influences).weight
  }

  function OnBone(influences: seq<Influence>, bone: nat): seq<Influence> {
    if influences == [] then []
    else OnBone(Init(influences), bone) + if Last(influences).bone == bone then [Last(influences)] else []
  }

  /** What a bone is counted for is the weight of its own influences. */
  lemma {:induction false} WeightOfBone(influences: seq<Influence>, bone: nat)
    ensures InfluenceWeight(influences, bone) == AllWeight(OnBone(influences, bone))
  {
    if influences != [] {
      WeightOfBone(Init(influences), bone);
      var before, last := OnBone(Init(influences), bone), Last(influences);
      assert Init(before + [last]) == before && Last(before + [last]) == last;
      assert before + [] == before;
    }
  }

  function SumOver(n: nat, weight: nat -> nat): nat {
    if n == 0 then 0 else SumOver(n - 1, weight) + weight(n - 1)
  }

  lemma {:induction false} SumOfSums(n: nat, a: nat -> nat, b: nat -> nat, c: nat -> nat)
    requires forall k | 0 <= k < n :: c(k) == a(k) + b(k)
    ensures SumOver(n, c) == SumOver(n, a) + SumOver(n, b)
  {
    if n > 0 {
      SumOfSums(n - 1, a, b, c);
    }
  }

  lemma {:induction false} SumOfOne(n: nat, weight: nat -> nat, at: nat)
    requires forall k | 0 <= k < n && k != at :: weight(k) == 0
    ensures SumOver(n, weight) == if at < n then weight(at) else 0
  {
    if n > 0 {
      SumOfOne(n - 1, weight, at);
    }
  }

  /** The bones of the palette share out all the weight of a vertex. */
  lemma {:induction false} BonesShareVertex(influences: seq<Influence>)
    requires InPalette(influences)
    ensures SumOver(32, bone => InfluenceWeight(influences, bone)) == AllWeight(influences)
  {
    if influences == [] {
      SumOfOne(32, bone => InfluenceWeight(influences, bone), 32);
    } else {
      var last := Last(influences);
      BonesShareVertex(Init(influences));
      var own := (bone: nat) => if last.bone == bone then last.weight else 0;
      SumOfOne(32, own, last.bone);
      SumOfSums(32, bone => InfluenceWeight(Init(influences), bone), own, bone => InfluenceWeight(influences, bone));
    }
  }

  function VerticesWeight(vertices: Vertices, indices: seq<u32>): nat {
    if indices == [] then 0
    else VerticesWeight(vertices, Init(indices)) + AllWeight(vertices.influences(Last(indices)))
  }

  function AllBatchWeight(vertices: Vertices, batch: seq<Strip>): nat {
    if batch == [] then 0 else AllBatchWeight(vertices, Init(batch)) + VerticesWeight(vertices, Last(batch).indices)
  }

  lemma {:induction false} BonesShareVertices(vertices: Vertices, indices: seq<u32>)
    requires forall x | x in indices :: InPalette(vertices.influences(x))
    ensures SumOver(32, bone => BoneWeight(vertices, indices, bone)) == VerticesWeight(vertices, indices)
  {
    if indices == [] {
      SumOfOne(32, bone => BoneWeight(vertices, indices, bone), 32);
    } else {
      var influences := vertices.influences(Last(indices));
      BonesShareVertices(vertices, Init(indices));
      assert Last(indices) in indices;
      BonesShareVertex(influences);
      SumOfSums(32, bone => BoneWeight(vertices, Init(indices), bone), bone => InfluenceWeight(influences, bone),
                bone => BoneWeight(vertices, indices, bone));
    }
  }

  /** The 32 totals of a skinned batch add up to all the weight of the vertices it draws. */
  lemma {:induction false} BonesShareBatch(vertices: Vertices, batch: seq<Strip>)
    requires forall s, x | s in batch && x in s.indices :: InPalette(vertices.influences(x))
    ensures SumOver(32, bone => BatchWeight(vertices, batch, true, bone)) == AllBatchWeight(vertices, batch)
  {
    if batch == [] {
      SumOfOne(32, bone => BatchWeight(vertices, batch, true, bone), 32);
    } else {
      BonesShareBatch(vertices, Init(batch));
      assert Last(batch) in batch;
      BonesShareVertices(vertices, Last(batch).indices);
      SumOfSums(32, bone => BatchWeight(vertices, Init(batch), true, bone),
                bone => BoneWeight(vertices, Last(batch).indices, bone),
                bone => BatchWeight(vertices, batch, true, bone));
    }
  }

  // ---------- majorities ----------

  /** More than half of the vertex's weight is on one bone. */
  predicate Majority(influences: seq<Influence>, bone: nat) {
    2 * AllWeight(OnBone(influences, bone)) > AllWeight(influences)
  }

  lemma {:induction false} TwoBones(influences: seq<Influence>, bone: nat, other: nat)
    requires bone != other
    ensures InfluenceWeight(influences, bone) + InfluenceWeight(influences, other) <= AllWeight(influences)
  {
    if influences != [] {
      TwoBones(Init(influences), bone, other);
    }
  }

  lemma {:induction false} Outweighs(influences: seq<Influence>, bone: nat, other: nat)
    requires Majority(influences, bone) && bone != other
    ensures InfluenceWeight(influences, other) < InfluenceWeight(influences, bone)
  {
    TwoBones(influences, bone, other);
    WeightOfBone(influences, bone);
  }

  lemma {:induction false} OutweighsInVertices(vertices: Vertices, indices: seq<u32>, bone: nat, other: nat)
    requires bone != other && forall x | x in indices :: Majority(vertices.influences(x), bone)
    ensures BoneWeight(vertices, indices, other) + |indices| <= BoneWeight(vertices, indices, bone)
  {
    if indices != [] {
      assert Last(indices) in indices;
      Outweighs(vertices.influences(Last(indices)), bone, other);
      OutweighsInVertices(vertices, Init(indices), bone, other);
    }
  }

  lemma {:induction false} OutweighsInBatch(vertices: Vertices, batch: seq<Strip>, bone: nat, other: nat)
    requires bone != other && batch != []
    requires forall s, x | s in batch && x in s.indices :: Majority(vertices.influences(x), bone)
    ensures BatchWeight(vertices, batch, true, other) < BatchWeight(vertices, batch, true, bone)
  {
    assert Last(batch) in batch;
    OutweighsInVertices(vertices, Last(batch).indices, bone, other);
    if Init(batch) != [] {
      OutweighsInBatch(vertices, Init(batch), bone, other);
    }
  }

  lemma {:induction false} MajorityIsPresent(influences: seq<Influence>, bone: nat)
    requires AllWeight(OnBone(influences, bone)) > 0
    ensures exists i :: 0 <= i < |influences| && influences[i].bone == bone
  {
    if influences != [] {
      if Last(influences).bone == bone {
        assert influences[|influences| - 1].bone == bone;
      } else {
        assert OnBone(Init(influences), bone) + [] == OnBone(Init(influences), bone);
        MajorityIsPresent(Init(influences), bone);
        var i :| 0 <= i < |Init(influences)| && Init(influences)[i].bone == bone;
        assert influences[i].bone == bone;
      }
    }
  }

  /**
   The record of a skinned batch names the bone that carries more than half of the weight of every
   vertex the batch draws; without skinning every record names bone 0.
   */
  lemma {:induction false} RecordNamesMajority(stream: seq<u32>, count: nat, flags: u32, vertices: Vertices, mesh: Mesh,
                                               k: nat, bone: nat)
    requires Check(stream, count, flags, vertices).Ok?
    requires Renders(mesh, Check(stream, count, flags, vertices).value, flags, vertices)
    requires k < |Batches(Check(stream, count, flags, vertices).value)|
    ensures k < |mesh.bounds|
    ensures && vertices.format / 0x100 % 16 != 0 && flags / 0x100 % 16 != 0
            && (forall s, x | s in Batches(Check(stream, count, flags, vertices).value)[k] && x in s.indices ::
                  Majority(vertices.influences(x), bone)) ==>
              mesh.bounds[k] == bone
    ensures vertices.format / 0x100 % 16 == 0 || flags / 0x100 % 16 == 0 ==> mesh.bounds[k] == 0
  {
    var strips := Check(stream, count, flags, vertices).value;
    CheckedAreUsable(stream, count, flags, vertices);
    RecordIsHeaviest(mesh, strips, flags, vertices, k);
    BatchInStrips(strips, k);
    var batch := Batches(strips)[k];
    hide *;
    SkinnedBits(vertices, flags);
    HeaviestIsMajority(vertices, strips, batch, Skinned(vertices, flags), mesh.bounds[k], bone);
  }

  lemma {:induction false} SkinnedBits(vertices: Vertices, flags: u32)
    ensures Skinned(vertices, flags) <==> vertices.format / 0x100 % 16 != 0 && flags / 0x100 % 16 != 0
  {
  }

  lemma {:induction false} CheckedAreUsable(stream: seq<u32>, count: nat, flags: u32, vertices: Vertices)
    requires Check(stream, count, flags, vertices).Ok?
    ensures forall s, k | s in Check(stream, count, flags, vertices).value && 0 <= k < |s.indices| ::
              Usable(vertices, Skinned(vertices, flags), s.indices[k])
  {
    CheckedStrips([], stream, 0, count, flags, vertices);
  }

  lemma {:induction false} HeaviestIsMajority(vertices: Vertices, strips: seq<Strip>, batch: Batch, skinned: bool,
                                              record: nat, bone: nat)
    requires forall s, k | s in strips && 0 <= k < |s.indices| :: Usable(vertices, skinned, s.indices[k])
    requires forall s | s in batch :: s in strips
    requires Heaviest(vertices, batch, skinned, record)
    ensures !skinned ==> record == 0
    ensures skinned && (forall s, x | s in batch && x in s.indices :: Majority(vertices.influences(x), bone)) ==>
              record == bone
  {
    hide Majority, Usable;
    if !skinned {
      assert BatchWeight(vertices, batch, skinned, 0) == BatchWeight(vertices, batch, skinned, record) == 0;
    } else if forall s, x | s in batch && x in s.indices :: Majority(vertices.influences(x), bone) {
      var s, x := Last(batch), Last(batch).indices[0];
      assert s in batch && x in s.indices;
      MajorityInPalette(vertices, strips, s, x, bone);
      if record != bone {
        OutweighsInBatch(vertices, batch, bone, record);
      }
    }
  }

  lemma {:induction false} RecordIsHeaviest(mesh: Mesh, strips: seq<Strip>, flags: u32, vertices: Vertices, k: nat)
    requires Renders(mesh, strips, flags, vertices) && k < |Batches(strips)|
    ensures k < |mesh.bounds| && Heaviest(vertices, Batches(strips)[k], Skinned(vertices, flags), mesh.bounds[k])
  {
  }

  lemma {:induction false} BatchInStrips(strips: seq<Strip>, k: nat)
    requires k < |Batches(strips)|
    ensures forall s | s in Batches(strips)[k] :: s in strips
  {
    BatchesRegroup(strips);
    hide Batches;
    forall s | s in Batches(strips)[k] ensures s in strips {
      FlattenMember(Batches(strips), Batches(strips)[k], s);
    }
  }

  lemma {:induction false} MajorityInPalette(vertices: Vertices, strips: seq<Strip>, s: Strip, x: u32, bone: nat)
    requires forall s, k | s in strips && 0 <= k < |s.indices| :: Usable(vertices, true, s.indices[k])
    requires s in strips && x in s.indices && Majority(vertices.influences(x), bone)
    ensures bone < 32
  {
    MajorityIsPresent(vertices.influences(x), bone);
    var k :| 0 <= k < |s.indices| && s.indices[k] == x;
    assert Usable(vertices, true, s.indices[k]);
  }
}
