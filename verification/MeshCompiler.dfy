/**
 The mesh compiler (geometry/src/mesh.rs, `compile`). Vertices enter as what the compiler asks
 of them: whether a position is finite, and which bones weigh on it. Centres and radii, which
 are floating point, are not modelled; the bone of each bounds record is.
 */
module MeshCompiler {
  import opened Wrappers
  import opened Words
  import opened TriangleStrips
  import opened StripStream
  import opened MeshBatches

  const PALETTE: nat := 32
  const BOUNDS_BYTES: nat := 20

  datatype Influence = Influence(bone: byte, weight: byte)

  datatype Vertices = Vertices(byteLength: nat, count: u32, format: u32, finite: u32 -> bool,
                               influences: u32 -> seq<Influence>)

  /** `bounds` keeps the bone of each record. */
  datatype Mesh = Mesh(indices: seq<u32>, descriptors: seq<u32>, bounds: seq<nat>)

  function VertexStride(format: u32): (stride: nat)
    ensures 12 <= stride <= 76
  {
    12
    + (if format / 4 % 2 == 1 then 12 else 0)
    + (if format / 0x20 % 2 == 1 then 4 else 0)
    + (if format / 0x40 % 2 == 1 then 4 else 0)
    + (if format / 0x10 % 2 == 1 then 8 else if format / 0x80 % 2 == 1 then 16 else 0)
    + (if format / 0x4000 % 2 == 1 then 16 else 0)
    + (if AnySkinBit(format) then 8 else 0)
  }

  /** `word & 0xf00 != 0` */
  predicate AnySkinBit(word: u32) {
    word / 0x100 % 16 != 0
  }

  predicate Skinned(vertices: Vertices, flags: u32) {
    AnySkinBit(vertices.format) && AnySkinBit(flags)
  }

  predicate InPalette(influences: seq<Influence>) {
    forall i | 0 <= i < |influences| :: influences[i].bone < PALETTE
  }

  function CheckVertex(index: u32, vertices: Vertices, skinned: bool): Result<(), Error> {
    if index >= vertices.count then Err(VertexIndex(index))
    else if !vertices.finite(index) then Err(NonFinitePosition)
    else if skinned && !InPalette(vertices.influences(index)) then Err(BoneOutOfRange)
    else Ok(())
  }

  function CheckVertices(indices: seq<u32>, from: nat, vertices: Vertices, skinned: bool): Result<(), Error>
    requires from <= |indices|
    decreases |indices| - from
  {
    if from == |indices| then Ok(())
    else
      match CheckVertex(indices[from], vertices, skinned)
      case Err(error) => Err(error)
      case Ok(_) => CheckVertices(indices, from + 1, vertices, skinned)
  }

  /** The strips from `cursor` on, each with its vertices, then the end of the stream. */
  function CheckStrips(done: seq<Strip>, stream: seq<u32>, cursor: nat, count: nat, flags: u32, vertices: Vertices)
    : Result<seq<Strip>, Error>
    decreases count
  {
    if count == 0 then
      if cursor == |stream| then Ok(done) else Err(TrailingData)
    else
      match ReadStrip(stream, cursor, flags)
      case Err(error) => Err(error)
      case Ok(strip) =>
        match CheckVertices(strip.indices, 0, vertices, Skinned(vertices, flags))
        case Err(error) => Err(error)
        case Ok(_) => CheckStrips(done + [strip], stream, cursor + StripWords(strip, flags), count - 1, flags, vertices)
  }

  /** Every test before the strips are read, in order. */
  function CheckSizes(length: nat, count: nat, flags: u32, vertices: Vertices): Result<(), Error> {
    var stride := DescriptorStride(flags);
    var _ :- ByteSize(vertices.count, VertexStride(vertices.format));
    if vertices.byteLength < vertices.count * VertexStride(vertices.format) then Err(TruncatedVertexArray)
    else if count == 0 || count > length / (stride + 3) then Err(InvalidStripCount)
    else if length + 3 * count > USIZE_MAX then Err(Overflow)
    else
      var _ :- ByteSize(length + 3 * count, 4);
      var _ :- ByteSize(count, stride * 4);
      var _ :- ByteSize(count, BOUNDS_BYTES);
      Ok(())
  }

  /** The strips `compile` draws, or why it refuses them. */
  function Check(stream: seq<u32>, count: nat, flags: u32, vertices: Vertices): Result<seq<Strip>, Error> {
    var _ :- CheckSizes(|stream|, count, flags, vertices);
    CheckStrips([], stream, 0, count, flags, vertices)
  }

  // ---------- bone weights ----------

  function InfluenceWeight(influences: seq<Influence>, bone: nat): nat {
    if influences == [] then 0
    else InfluenceWeight(Init(influences), bone) + if Last(influences).bone == bone then Last(influences).weight else 0
  }

  function BoneWeight(vertices: Vertices, indices: seq<u32>, bone: nat): nat {
    if indices == [] then 0
    else BoneWeight(vertices, Init(indices), bone) + InfluenceWeight(vertices.influences(Last(indices)), bone)
  }

  function BatchWeight(vertices: Vertices, batch: seq<Strip>, skinned: bool, bone: nat): nat {
    if batch == [] || !skinned then 0
    else BatchWeight(vertices, Init(batch), skinned, bone) + BoneWeight(vertices, Last(batch).indices, bone)
  }

  /** The lowest-numbered bone that no other bone outweighs over the batch's source indices. */
  ghost predicate Heaviest(vertices: Vertices, batch: Batch, skinned: bool, bone: nat) {
    && bone < PALETTE
    && (forall b | 0 <= b < PALETTE ::
          BatchWeight(vertices, batch, skinned, b) <= BatchWeight(vertices, batch, skinned, bone))
    && (forall b | 0 <= b < bone ::
          BatchWeight(vertices, batch, skinned, b) < BatchWeight(vertices, batch, skinned, bone))
  }

  method IncludeInfluences(influences: seq<Influence>, weights: seq<nat>) returns (r: Result<seq<nat>, Error>)
    requires |weights| == PALETTE
    ensures r.Ok? <==> InPalette(influences)
    ensures r.Err? ==> r.error == BoneOutOfRange
    ensures r.Ok? ==> |r.value| == PALETTE
    ensures r.Ok? ==> forall b | 0 <= b < PALETTE :: r.value[b] == weights[b] + InfluenceWeight(influences, b)
  {
    var totals := weights;
    for i := 0 to |influences|
      invariant |totals| == PALETTE && InPalette(influences[..i])
      invariant forall b | 0 <= b < PALETTE :: totals[b] == weights[b] + InfluenceWeight(influences[..i], b)
    {
      var bone := influences[i].bone;
      assert Init(influences[..i + 1]) == influences[..i];
      if bone >= PALETTE {
        return Err(BoneOutOfRange);
      }
      totals := totals[bone := totals[bone] + influences[i].weight];
    }
    assert influences[..|influences|] == influences;
    r := Ok(totals);
  }

  method IncludeVertices(indices: seq<u32>, vertices: Vertices, skinned: bool, weights: seq<nat>)
    returns (r: Result<seq<nat>, Error>)
    requires |weights| == PALETTE
    ensures r.Ok? <==> CheckVertices(indices, 0, vertices, skinned).Ok?
    ensures r.Err? ==> r.error == CheckVertices(indices, 0, vertices, skinned).error
    ensures r.Ok? ==> |r.value| == PALETTE
    ensures r.Ok? ==> forall b | 0 <= b < PALETTE ::
                        r.value[b] == weights[b] + if skinned then BoneWeight(vertices, indices, b) else 0
  {
    var totals := weights;
    for i := 0 to |indices|
      invariant |totals| == PALETTE
      invariant CheckVertices(indices, 0, vertices, skinned) == CheckVertices(indices, i, vertices, skinned)
      invariant forall b | 0 <= b < PALETTE ::
        totals[b] == weights[b] + if skinned then BoneWeight(vertices, indices[..i], b) else 0
    {
      var index := indices[i];
      assert Init(indices[..i + 1]) == indices[..i];
      if index >= vertices.count {
        return Err(VertexIndex(index));
      }
      if !vertices.finite(index) {
        return Err(NonFinitePosition);
      }
      if skinned {
        var included := IncludeInfluences(vertices.influences(index), totals);
        if included.Err? {
          return Err(included.error);
        }
        totals := included.value;
      }
    }
    assert indices[..|indices|] == indices;
    r := Ok(totals);
  }

  method HeaviestBone(weights: seq<nat>) returns (bone: nat)
    requires |weights| == PALETTE
    ensures bone < PALETTE
    ensures forall b | 0 <= b < PALETTE :: weights[b] <= weights[bone]
    ensures forall b | 0 <= b < bone :: weights[b] < weights[bone]
  {
    bone := 0;
    for index := 1 to |weights|
      invariant 0 <= bone < index
      invariant forall b | 0 <= b < index :: weights[b] <= weights[bone]
      invariant forall b | 0 <= b < bone :: weights[b] < weights[bone]
    {
      if weights[index] > weights[bone] {
        bone := index;
      }
    }
  }

  // ---------- the compiler ----------

  /** What has been written after the strips in `done`: closed batches, then the one still open. */
  ghost predicate Written(done: seq<Strip>, flags: u32, indices: seq<u32>, descriptors: seq<u32>, batchStart: nat) {
    if done == [] then indices == [] && descriptors == [] && batchStart == 0
    else
      var closed, open := Init(Batches(done)), Last(Batches(done));
      && indices == Stitched(closed) + Stitch(open)
      && batchStart == |Stitched(closed)|
      && descriptors == Described(closed, flags) + [0] + SelectorWords(open[0].Key(), flags)
  }

  ghost predicate Weighed(done: seq<Strip>, vertices: Vertices, skinned: bool, weights: seq<nat>, bounds: seq<nat>) {
    && |weights| == PALETTE
    && if done == [] then bounds == [] && forall b | 0 <= b < PALETTE :: weights[b] == 0
       else
         var closed, open := Init(Batches(done)), Last(Batches(done));
         && BoundsFor(closed, vertices, skinned, bounds)
         && forall b | 0 <= b < PALETTE :: weights[b] == BatchWeight(vertices, open, skinned, b)
  }

  ghost predicate BoundsFor(batches: seq<Batch>, vertices: Vertices, skinned: bool, bounds: seq<nat>) {
    && |bounds| == |batches|
    && forall k | 0 <= k < |batches| :: Heaviest(vertices, batches[k], skinned, bounds[k])
  }

  lemma {:induction false} BatchesStep(done: seq<Strip>, strip: Strip)
    ensures done == [] ==> Batches(done + [strip]) == [[strip]]
    ensures done != [] && Last(done).Key() == strip.Key() ==>
              Batches(done + [strip]) == Init(Batches(done)) + [Last(Batches(done)) + [strip]]
    ensures done != [] && Last(done).Key() != strip.Key() ==> Batches(done + [strip]) == Batches(done) + [[strip]]
  {
    assert Init(done + [strip]) == done && Last(done + [strip]) == strip;
    if done == [] {
      assert [] + [[strip]] == [[strip]];
    }
  }

  lemma {:induction false} StitchExtend(open: Batch, strip: Strip)
    ensures Stitch(open + [strip])
            == Stitch(open) + Connector(Last(Stitch(open)), strip.indices[0], NextWinding(Last(open)) == strip.reversed)
               + strip.indices
  {
    assert Init(open + [strip]) == open && Last(open + [strip]) == strip;
  }

  /** Closing the open batch patches its length in and makes the whole list descriptors. */
  lemma {:induction false} CloseBatch(done: seq<Strip>, flags: u32, indices: seq<u32>, descriptors: seq<u32>,
                                      batchStart: nat)
    requires done != [] && Written(done, flags, indices, descriptors, batchStart) && |indices| <= USIZE_MAX
    ensures batchStart <= |indices| && |descriptors| >= DescriptorStride(flags)
    ensures var length: nat := |indices| - batchStart;
            descriptors[|descriptors| - DescriptorStride(flags) := length] == Described(Batches(done), flags)
    ensures indices == Stitched(Batches(done))
  {
    hide Batches, Stitched, Described, Stitch, SelectorWords;
    var closed, open := Init(Batches(done)), Last(Batches(done));
    assert Batches(done) == closed + [open];
    StitchedSnoc(closed, open);
    DescribedSnoc(closed, open, flags);
    PatchLength(Described(closed, flags), |indices| - batchStart, SelectorWords(open[0].Key(), flags));
  }

  lemma {:induction false} PatchLength(closed: seq<nat>, length: nat, selectors: seq<u32>)
    ensures (closed + [0] + selectors)[|closed| := length] == closed + ([length] + selectors)
  {
  }

  lemma {:induction false} NextBatch(done: seq<Strip>, strip: Strip, flags: u32, indices: seq<u32>,
                                     descriptors: seq<u32>, more: seq<u32>, words: seq<u32>)
    requires done == [] || Last(done).Key() != strip.Key()
    requires indices == (if done == [] then [] else Stitched(Batches(done)))
    requires descriptors == (if done == [] then [] else Described(Batches(done), flags))
    requires more == indices + (if strip.reversed then [strip.indices[0]] else []) + strip.indices
    requires words == descriptors + [0] + SelectorWords(strip.Key(), flags)
    ensures Written(done + [strip], flags, more, words, |indices|)
  {
    BatchesStep(done, strip);
    StitchFirst(strip);
    var batches := Batches(done + [strip]);
    assert Last(batches) == [strip];
    assert Init(batches) == if done == [] then [] else Batches(done);
    Associative(indices, if strip.reversed then [strip.indices[0]] else [], strip.indices);
  }

  lemma {:induction false} SameBatch(done: seq<Strip>, strip: Strip, flags: u32, indices: seq<u32>,
                                     descriptors: seq<u32>, batchStart: nat, more: seq<u32>)
    requires done != [] && Last(done).Key() == strip.Key()
    requires Written(done, flags, indices, descriptors, batchStart)
    requires indices != []
    requires more == indices + Connector(Last(indices), strip.indices[0], NextWinding(Last(done)) == strip.reversed)
             + strip.indices
    ensures Written(done + [strip], flags, more, descriptors, batchStart)
  {
    BatchesStep(done, strip);
    var closed, open := Init(Batches(done)), Last(Batches(done));
    StitchExtend(open, strip);
    var batches := Batches(done + [strip]);
    assert Last(batches) == open + [strip] && Init(batches) == closed;
    assert Last(indices) == Last(Stitch(open));
    var connector := Connector(Last(indices), strip.indices[0], NextWinding(Last(done)) == strip.reversed);
    Associative(Stitched(closed), Stitch(open), connector);
    Associative(Stitched(closed), Stitch(open) + connector, strip.indices);
  }

  lemma {:induction false} WeighStep(done: seq<Strip>, strip: Strip, vertices: Vertices, skinned: bool,
                                     before: seq<nat>, weights: seq<nat>, bounds: seq<nat>)
    requires |before| == |weights| == PALETTE && WeighReady(done, strip, vertices, skinned, before, bounds)
    requires forall b | 0 <= b < PALETTE ::
      weights[b] == before[b] + if skinned then BoneWeight(vertices, strip.indices, b) else 0
    ensures Weighed(done + [strip], vertices, skinned, weights, bounds)
  {
    BatchesStep(done, strip);
    var batches := Batches(done + [strip]);
    if done != [] && Last(done).Key() == strip.Key() {
      var closed, open := Init(Batches(done)), Last(Batches(done));
      assert Init(open + [strip]) == open && Last(open + [strip]) == strip;
      assert Last(batches) == open + [strip] && Init(batches) == closed;
    } else {
      assert Last(batches) == [strip] && Init([strip]) == [];
      assert Init(batches) == if done == [] then [] else Batches(done);
    }
  }

  lemma {:induction false} BoundsSnoc(done: seq<Strip>, vertices: Vertices, skinned: bool, weights: seq<nat>,
                                      bounds: seq<nat>, bone: nat)
    requires done != [] && Weighed(done, vertices, skinned, weights, bounds)
    requires bone < PALETTE
    requires forall b | 0 <= b < PALETTE :: weights[b] <= weights[bone]
    requires forall b | 0 <= b < bone :: weights[b] < weights[bone]
    ensures BoundsFor(Batches(done), vertices, skinned, bounds + [bone])
  {
    var closed, open := Init(Batches(done)), Last(Batches(done));
    assert Batches(done) == closed + [open];
    assert Heaviest(vertices, open, skinned, bone);
  }

  /** What an accepted mesh is worth to the renderer. */
  ghost predicate Renders(mesh: Mesh, strips: seq<Strip>, flags: u32, vertices: Vertices) {
    && Draw(mesh.descriptors, mesh.indices, flags) == Tagged(strips)
    && Partitions(mesh.descriptors, mesh.indices, flags)
    && mesh.indices == Stitched(Batches(strips))
    && mesh.descriptors == Described(Batches(strips), flags)
    && BoundsFor(Batches(strips), vertices, Skinned(vertices, flags), mesh.bounds)
  }

  lemma {:induction false} AssembledRenders(strips: seq<Strip>, flags: u32, vertices: Vertices, mesh: Mesh)
    requires SelectAll(strips, flags) == strips
    requires mesh.indices == Stitched(Batches(strips)) && mesh.descriptors == Described(Batches(strips), flags)
    requires BoundsFor(Batches(strips), vertices, Skinned(vertices, flags), mesh.bounds)
    ensures Renders(mesh, strips, flags, vertices)
  {
    BatchesRegroup(strips);
    forall b, s | b in Batches(strips) && s in b
      ensures Selected(s, flags) == s
    {
      FlattenMember(Batches(strips), b, s);
      var i :| 0 <= i < |strips| && strips[i] == s;
      assert SelectAll(strips, flags)[i] == s;
    }
    assert AsWords(Described(Batches(strips), flags)) == mesh.descriptors;
    DrawAssembled(Batches(strips), flags);
  }

  lemma {:induction false} FlattenMember(batches: seq<Batch>, batch: Batch, strip: Strip)
    requires batch in batches && strip in batch
    ensures strip in Flatten(batches)
  {
    if batches[0] != batch {
      FlattenMember(batches[1..], batch, strip);
    }
  }

  /** What passes the checks is what the parser reads. */
  lemma {:induction false} CheckedAreRead(done: seq<Strip>, stream: seq<u32>, cursor: nat, count: nat, flags: u32,
                                          vertices: Vertices)
    requires CheckStrips(done, stream, cursor, count, flags, vertices).Ok?
    ensures ReadStrips(stream, cursor, count, flags).Ok?
    ensures CheckStrips(done, stream, cursor, count, flags, vertices).value
            == done + ReadStrips(stream, cursor, count, flags).value
    decreases count
  {
    if count == 0 {
      assert done + [] == done;
    } else {
      var strip := ReadStrip(stream, cursor, flags).value;
      var next := cursor + StripWords(strip, flags);
      CheckedAreRead(done + [strip], stream, next, count - 1, flags, vertices);
      Associative(done, [strip], ReadStrips(stream, next, count - 1, flags).value);
    }
  }

  // ---------- which vertices are accepted ----------

  /** Of the next `count` strips of the stream, the parser reads this one. */
  ghost predicate Reads(stream: seq<u32>, cursor: nat, count: nat, flags: u32, strip: Strip)
    decreases count
  {
    && count > 0
    && ReadStrip(stream, cursor, flags).Ok?
    && var next := ReadStrip(stream, cursor, flags).value;
       next == strip || Reads(stream, cursor + StripWords(next, flags), count - 1, flags, strip)
  }

  /** Some strip of the stream draws this vertex. */
  ghost predicate Draws(stream: seq<u32>, count: nat, flags: u32, index: u32) {
    exists strip :: Reads(stream, 0, count, flags, strip) && index in strip.indices
  }

  ghost predicate Usable(vertices: Vertices, skinned: bool, index: u32) {
    && index < vertices.count && vertices.finite(index)
    && (skinned ==> forall i | 0 <= i < |vertices.influences(index)| :: vertices.influences(index)[i].bone < 32)
  }

  ghost predicate BoneBeyond(vertices: Vertices, index: u32) {
    exists i :: 0 <= i < |vertices.influences(index)| && vertices.influences(index)[i].bone >= 32
  }

  lemma {:induction false} CheckedVertices(indices: seq<u32>, from: nat, vertices: Vertices, skinned: bool)
    requires from <= |indices|
    ensures match CheckVertices(indices, from, vertices, skinned)
            case Ok(_) => forall k | from <= k < |indices| :: Usable(vertices, skinned, indices[k])
            case Err(error) => exists k ::
              && from <= k < |indices|
              && (|| (error == VertexIndex(indices[k]) && indices[k] >= vertices.count)
                  || (error == NonFinitePosition && indices[k] < vertices.count && !vertices.finite(indices[k]))
                  || (error == BoneOutOfRange && skinned && indices[k] < vertices.count
                      && BoneBeyond(vertices, indices[k])))
    decreases |indices| - from
  {
    if from < |indices| {
      CheckedVertices(indices, from + 1, vertices, skinned);
    }
  }

  lemma {:induction false} CheckedStrips(done: seq<Strip>, stream: seq<u32>, cursor: nat, count: nat, flags: u32,
                                         vertices: Vertices)
    requires CheckStrips(done, stream, cursor, count, flags, vertices).Ok?
    requires forall s, k | s in done && 0 <= k < |s.indices| :: Usable(vertices, Skinned(vertices, flags), s.indices[k])
    ensures forall s, k |
              s in CheckStrips(done, stream, cursor, count, flags, vertices).value && 0 <= k < |s.indices| ::
              Usable(vertices, Skinned(vertices, flags), s.indices[k])
    decreases count
  {
    if count > 0 {
      var strip := ReadStrip(stream, cursor, flags).value;
      CheckedVertices(strip.indices, 0, vertices, Skinned(vertices, flags));
      hide Usable, ReadStrip, StripWords, CheckVertices;
      CheckedStrips(done + [strip], stream, cursor + StripWords(strip, flags), count - 1, flags, vertices);
    }
  }

  lemma {:induction false} RefusedStrip(done: seq<Strip>, stream: seq<u32>, cursor: nat, count: nat, flags: u32,
                                        vertices: Vertices) returns (strip: Strip)
    requires CheckStrips(done, stream, cursor, count, flags, vertices).Err?
    requires var error := CheckStrips(done, stream, cursor, count, flags, vertices).error;
             error.VertexIndex? || error.NonFinitePosition? || error.BoneOutOfRange?
    ensures Reads(stream, cursor, count, flags, strip)
    ensures CheckVertices(strip.indices, 0, vertices, Skinned(vertices, flags))
            == Err(CheckStrips(done, stream, cursor, count, flags, vertices).error)
    decreases count
  {
    hide CheckVertices, StripWords, ReadStrip;
    ReadErrors(stream, cursor, flags);
    strip := ReadStrip(stream, cursor, flags).value;
    if CheckVertices(strip.indices, 0, vertices, Skinned(vertices, flags)).Ok? {
      strip := RefusedStrip(done + [strip], stream, cursor + StripWords(strip, flags), count - 1, flags, vertices);
    }
  }

  lemma {:induction false} ReadErrors(stream: seq<u32>, cursor: nat, flags: u32)
    ensures var read := ReadStrip(stream, cursor, flags);
            read.Err? ==> !read.error.VertexIndex? && !read.error.NonFinitePosition? && !read.error.BoneOutOfRange?
  {
  }

  /** A refusal for a vertex is due to one that a strip of the stream draws. */
  lemma {:induction false} RefusedVertex(stream: seq<u32>, count: nat, flags: u32, vertices: Vertices)
    returns (index: u32)
    requires Check(stream, count, flags, vertices).Err?
    requires var error := Check(stream, count, flags, vertices).error;
             error.VertexIndex? || error.NonFinitePosition? || error.BoneOutOfRange?
    ensures Draws(stream, count, flags, index)
    ensures var error := Check(stream, count, flags, vertices).error;
            && (error.VertexIndex? ==> index == error.index && index >= vertices.count)
            && (error.NonFinitePosition? ==> index < vertices.count && !vertices.finite(index))
            && (error.BoneOutOfRange? ==>
                  && vertices.format / 0x100 % 16 != 0 && flags / 0x100 % 16 != 0
                  && index < vertices.count && BoneBeyond(vertices, index))
  {
    var error := Check(stream, count, flags, vertices).error;
    SizesAreOk(stream, count, flags, vertices);
    var strip := RefusedStrip([], stream, 0, count, flags, vertices);
    CheckedVertices(strip.indices, 0, vertices, Skinned(vertices, flags));
    hide CheckVertices, CheckStrips, CheckSizes, Reads, Check;
    var k :| 0 <= k < |strip.indices|
             && (|| (error == VertexIndex(strip.indices[k]) && strip.indices[k] >= vertices.count)
                 || (error == NonFinitePosition && strip.indices[k] < vertices.count
                     && !vertices.finite(strip.indices[k]))
                 || (error == BoneOutOfRange && Skinned(vertices, flags) && strip.indices[k] < vertices.count
                     && BoneBeyond(vertices, strip.indices[k])));
    index := strip.indices[k];
  }

  lemma {:induction false} SizesAreOk(stream: seq<u32>, count: nat, flags: u32, vertices: Vertices)
    requires Check(stream, count, flags, vertices).Err?
    requires var error := Check(stream, count, flags, vertices).error;
             error.VertexIndex? || error.NonFinitePosition? || error.BoneOutOfRange?
    ensures CheckStrips([], stream, 0, count, flags, vertices) == Err(Check(stream, count, flags, vertices).error)
  {
    hide CheckStrips;
  }

  /** Some strip of the list has this index. */
  ghost predicate Indexed(strips: seq<Strip>, index: u32) {
    exists s :: s in strips && index in s.indices
  }

  lemma {:induction false} StitchMembers(batch: Batch)
    ensures forall x | x in Stitch(batch) :: Indexed(batch, x)
  {
    var strip := Last(batch);
    assert strip in batch && strip.indices[0] in strip.indices;
    assert forall x | x in strip.indices :: Indexed(batch, x);
    if |batch| > 1 {
      StitchMembers(Init(batch));
      assert Last(Stitch(Init(batch))) in Stitch(Init(batch));
      forall x | Indexed(Init(batch), x) ensures Indexed(batch, x) {
        var s :| s in Init(batch) && x in s.indices;
        assert s in batch;
      }
    }
  }

  /** Every index that is written is an index of some strip. */
  lemma {:induction false} StitchedMembers(batches: seq<Batch>)
    ensures forall x | x in Stitched(batches) :: Indexed(Flatten(batches), x)
  {
    if batches != [] {
      StitchMembers(batches[0]);
      StitchedMembers(batches[1..]);
      hide Stitch;
      forall x | Indexed(batches[0], x) || Indexed(Flatten(batches[1..]), x) ensures Indexed(Flatten(batches), x) {
        var s :| (s in batches[0] || s in Flatten(batches[1..])) && x in s.indices;
        assert s in Flatten(batches);
      }
    }
  }

  /**
   An accepted mesh draws vertices only that exist, are finite and, when it is skinned, weigh on bones
   of the palette.
   */
  lemma {:induction false} AcceptedVertices(stream: seq<u32>, count: nat, flags: u32, vertices: Vertices,
                                            indices: seq<u32>)
    requires Check(stream, count, flags, vertices).Ok?
    requires indices == Stitched(Batches(Check(stream, count, flags, vertices).value))
    ensures forall x | x in indices ::
              Usable(vertices, vertices.format / 0x100 % 16 != 0 && flags / 0x100 % 16 != 0, x)
  {
    var strips := Check(stream, count, flags, vertices).value;
    CheckedStrips([], stream, 0, count, flags, vertices);
    hide Usable, CheckStrips, CheckSizes, Stitched, Batches, Check;
    StitchedMembers(Batches(strips));
    BatchesRegroup(strips);
    forall x | x in indices ensures Usable(vertices, Skinned(vertices, flags), x) {
      var s :| s in strips && x in s.indices;
      var k :| 0 <= k < |s.indices| && s.indices[k] == x;
    }
  }

  lemma {:induction false} FewBatches(strips: seq<Strip>)
    ensures |Batches(strips)| <= |strips|
  {
    if strips != [] {
      FewBatches(Init(strips));
    }
  }

  /** Strips that are compiled have their vertices, and everything allocated for them can be addressed. */
  lemma {:induction false} AcceptedSizes(stream: seq<u32>, count: nat, flags: u32, vertices: Vertices, mesh: Mesh)
    requires Check(stream, count, flags, vertices).Ok?
    requires Renders(mesh, Check(stream, count, flags, vertices).value, flags, vertices)
    requires |mesh.indices| <= |stream| + 3 * count
    ensures count > 0 && vertices.byteLength >= vertices.count * VertexStride(vertices.format)
    ensures 4 * |mesh.indices| <= 0x7FFF_FFFF && 4 * |mesh.descriptors| <= 0x7FFF_FFFF
    ensures 20 * |mesh.bounds| <= 0x7FFF_FFFF
  {
    hide *;
    var strips := Check(stream, count, flags, vertices).value;
    CheckedCount(stream, count, flags, vertices);
    RenderedCount(mesh, strips, flags, vertices);
    FewBatches(strips);
    DescribedLength(Batches(strips), flags);
    AtMost(DescriptorStride(flags), |Batches(strips)|, count);
    SizesFit(|stream|, count, flags, vertices);
  }

  lemma {:induction false} CheckedCount(stream: seq<u32>, count: nat, flags: u32, vertices: Vertices)
    requires Check(stream, count, flags, vertices).Ok?
    ensures |Check(stream, count, flags, vertices).value| == count
    ensures CheckSizes(|stream|, count, flags, vertices).Ok?
  {
    CheckedAreRead([], stream, 0, count, flags, vertices);
    EncodeRead(stream, 0, count, flags);
  }

  lemma {:induction false} RenderedCount(mesh: Mesh, strips: seq<Strip>, flags: u32, vertices: Vertices)
    requires Renders(mesh, strips, flags, vertices)
    ensures |mesh.bounds| == |Batches(strips)| && mesh.descriptors == Described(Batches(strips), flags)
  {
  }

  lemma {:induction false} AtMost(stride: nat, few: nat, many: nat)
    requires few <= many
    ensures stride * few <= stride * many
  {
  }

  lemma {:induction false} SizesFit(length: nat, count: nat, flags: u32, vertices: Vertices)
    requires CheckSizes(length, count, flags, vertices).Ok?
    ensures count > 0 && vertices.byteLength >= vertices.count * VertexStride(vertices.format)
    ensures 4 * (length + 3 * count) <= 0x7FFF_FFFF && 4 * DescriptorStride(flags) * count <= 0x7FFF_FFFF
    ensures 20 * count <= 0x7FFF_FFFF
  {
  }

  method Compile(stream: seq<u32>, stripCount: u32, flags: u32, vertices: Vertices) returns (r: Result<Mesh, Error>)
    ensures r.Ok? <==> Check(stream, stripCount, flags, vertices).Ok?
    ensures r.Err? ==> r.error == Check(stream, stripCount, flags, vertices).error
    ensures r.Ok? ==> Renders(r.value, Check(stream, stripCount, flags, vertices).value, flags, vertices)
    ensures r.Ok? ==> |r.value.indices| <= |stream| + (3 - DescriptorStride(flags)) * stripCount
    ensures r.Ok? ==> |r.value.descriptors| == DescriptorStride(flags) * |r.value.bounds|
    ensures r.Ok? ==> forall x | x in r.value.indices ::
                        Usable(vertices, vertices.format / 0x100 % 16 != 0 && flags / 0x100 % 16 != 0, x)
    ensures r.Ok? ==> stripCount > 0 && vertices.byteLength >= vertices.count * VertexStride(vertices.format)
    ensures r.Ok? ==> && 4 * |r.value.indices| <= 0x7FFF_FFFF && 4 * |r.value.descriptors| <= 0x7FFF_FFFF
                      && 20 * |r.value.bounds| <= 0x7FFF_FFFF
  {
    hide CheckStrips, Batches, Usable, Stitched, Draw, Tagged, Partitions, Heaviest;
    var stride := VertexStride(vertices.format);
    var size := ByteSize(vertices.count, stride);
    if size.Err? {
      return Err(size.error);
    }
    if vertices.byteLength < vertices.count * stride {
      return Err(TruncatedVertexArray);
    }
    var descriptorStride := DescriptorStride(flags);
    if stripCount == 0 || stripCount > |stream| / (descriptorStride + 3) {
      return Err(InvalidStripCount);
    }
    var capacity := |stream| + 3 * stripCount;
    if capacity > USIZE_MAX {
      return Err(Overflow);
    }
    size := ByteSize(capacity, 4);
    if size.Err? {
      return Err(size.error);
    }
    size := ByteSize(stripCount, descriptorStride * 4);
    if size.Err? {
      return Err(size.error);
    }
    size := ByteSize(stripCount, BOUNDS_BYTES);
    if size.Err? {
      return Err(size.error);
    }
    r := CompileStrips(stream, stripCount, flags, vertices);
    SlackIsLinear(flags, stripCount);
    if r.Ok? {
      AcceptedVertices(stream, stripCount, flags, vertices, r.value.indices);
      AcceptedSizes(stream, stripCount, flags, vertices, r.value);
      DescribedLength(Batches(Check(stream, stripCount, flags, vertices).value), flags);
    }
  }

  method ReadOne(stream: seq<u32>, start: nat, flags: u32) returns (r: Result<Strip, Error>, end: nat)
    requires start <= |stream|
    ensures r == ReadStrip(stream, start, flags)
    ensures r.Ok? ==> end == start + StripWords(r.value, flags)
  {
    var cursor := start;
    end := start;
    if cursor >= |stream| {
      return Err(TruncatedHeader), end;
    }
    var packed := stream[cursor];
    cursor := cursor + 1;
    var count := packed % 0x8000_0000;
    var reversed := packed >= 0x8000_0000;
    var material: u32, variant: u32 := 0, 0;
    if HasMaterial(flags) {
      if cursor >= |stream| {
        return Err(TruncatedSelector), end;
      }
      material := stream[cursor];
      cursor := cursor + 1;
    }
    if HasVariant(flags) {
      if cursor >= |stream| {
        return Err(TruncatedSelector), end;
      }
      variant := stream[cursor];
      cursor := cursor + 1;
    }
    end := cursor + count;
    if end > |stream| {
      return Err(TruncatedIndices), end;
    }
    var indices := stream[cursor..end];
    if |indices| < 3 {
      return Err(ShortStrip), end;
    }
    var strip: Strip := RawStrip(reversed, material, variant, indices);
    r := Ok(strip);
  }

  /** Start a batch: its length is patched in when it closes. */
  method OpenBatch(strip: Strip, flags: u32, indices: seq<u32>, descriptors: seq<u32>)
    returns (more: seq<u32>, words: seq<u32>)
    ensures more == indices + (if strip.reversed then [strip.indices[0]] else []) + strip.indices
    ensures words == descriptors + [0] + SelectorWords(strip.Key(), flags)
  {
    words := descriptors + [0];
    if HasMaterial(flags) {
      words := words + [strip.material];
    }
    if HasVariant(flags) {
      words := words + [strip.variant];
    }
    more := indices;
    if strip.reversed {
      more := more + [strip.indices[0]];
    }
    more := more + strip.indices;
  }

  /** Continue the open batch through a degenerate connector. */
  method ExtendBatch(strip: Strip, indices: seq<u32>, previousWinding: bool) returns (more: seq<u32>)
    requires indices != []
    ensures more == indices + Connector(Last(indices), strip.indices[0], previousWinding == strip.reversed)
            + strip.indices
  {
    var last := indices[|indices| - 1];
    more := indices + [last];
    if previousWinding == strip.reversed {
      more := more + [last];
    }
    more := more + [strip.indices[0]];
    assert more == indices + Connector(last, strip.indices[0], previousWinding == strip.reversed);
    more := more + strip.indices;
  }

  /** Patch the open batch's length and record its bounds. */
  method CloseOpenBatch(ghost done: seq<Strip>, flags: u32, vertices: Vertices, indices: seq<u32>,
                        descriptors: seq<u32>, batchStart: nat, weights: seq<nat>, bounds: seq<nat>)
    returns (words: seq<u32>, records: seq<nat>)
    requires done != [] && |indices| <= USIZE_MAX
    requires Written(done, flags, indices, descriptors, batchStart)
    requires Weighed(done, vertices, Skinned(vertices, flags), weights, bounds)
    ensures indices == Stitched(Batches(done)) && words == Described(Batches(done), flags)
    ensures BoundsFor(Batches(done), vertices, Skinned(vertices, flags), records)
  {
    CloseBatch(done, flags, indices, descriptors, batchStart);
    words := descriptors[|descriptors| - DescriptorStride(flags) := |indices| - batchStart];
    var bone := HeaviestBone(weights);
    BoundsSnoc(done, vertices, Skinned(vertices, flags), weights, bounds, bone);
    records := bounds + [bone];
  }

  /** The accumulated weights belong to the batch that `strip` is about to join. */
  ghost predicate WeighReady(done: seq<Strip>, strip: Strip, vertices: Vertices, skinned: bool, weights: seq<nat>,
                             bounds: seq<nat>) {
    && |weights| == PALETTE
    && if done != [] && Last(done).Key() == strip.Key() then Weighed(done, vertices, skinned, weights, bounds)
       else
         && (forall b | 0 <= b < PALETTE :: weights[b] == 0)
         && BoundsFor(if done == [] then [] else Batches(done), vertices, skinned, bounds)
  }

  /** The compiler's working state between strips. */
  datatype Progress = Progress(indices: seq<u32>, descriptors: seq<u32>, batchStart: nat, weights: seq<nat>,
                               bounds: seq<nat>, previousKey: Option<Key>, previousWinding: bool)

  const START: Progress := Progress([], [], 0, seq(PALETTE, _ => 0), [], None, false)

  ghost predicate Remembers(done: seq<Strip>, p: Progress) {
    && p.previousKey == (if done == [] then None else Some(Last(done).Key()))
    && (done != [] ==> p.previousWinding == NextWinding(Last(done)))
  }

  /** The state faithfully represents the strips in `done`. */
  ghost predicate Represents(p: Progress, done: seq<Strip>, flags: u32, vertices: Vertices) {
    && Remembers(done, p)
    && Written(done, flags, p.indices, p.descriptors, p.batchStart)
    && Weighed(done, vertices, Skinned(vertices, flags), p.weights, p.bounds)
  }

  lemma {:induction false} StartRepresents(flags: u32, vertices: Vertices)
    ensures Represents(START, [], flags, vertices)
  {
  }

  /** The new strip has other selectors: close the open batch and start the next. */
  method AppendToNewBatch(ghost done: seq<Strip>, strip: Strip, flags: u32, vertices: Vertices, p: Progress)
    returns (q: Progress)
    requires Represents(p, done, flags, vertices) && |p.indices| <= USIZE_MAX
    requires p.previousKey != Some(strip.Key())
    ensures Written(done + [strip], flags, q.indices, q.descriptors, q.batchStart)
    ensures WeighReady(done, strip, vertices, Skinned(vertices, flags), q.weights, q.bounds)
    ensures |q.indices| <= |p.indices| + |strip.indices| + 3
  {
    var descriptors, bounds := p.descriptors, p.bounds;
    if p.previousKey.Some? {
      descriptors, bounds :=
        CloseOpenBatch(done, flags, vertices, p.indices, p.descriptors, p.batchStart, p.weights, p.bounds);
    }
    var more, words := OpenBatch(strip, flags, p.indices, descriptors);
    NextBatch(done, strip, flags, p.indices, descriptors, more, words);
    q := p.(indices := more, descriptors := words, batchStart := |p.indices|, weights := seq(PALETTE, _ => 0),
            bounds := bounds);
  }

  method AppendToOpenBatch(ghost done: seq<Strip>, strip: Strip, flags: u32, vertices: Vertices, p: Progress)
    returns (q: Progress)
    requires Represents(p, done, flags, vertices)
    requires p.previousKey == Some(strip.Key())
    ensures Written(done + [strip], flags, q.indices, q.descriptors, q.batchStart)
    ensures WeighReady(done, strip, vertices, Skinned(vertices, flags), q.weights, q.bounds)
    ensures |q.indices| <= |p.indices| + |strip.indices| + 3
  {
    assert p.indices != [];
    var more := ExtendBatch(strip, p.indices, p.previousWinding);
    SameBatch(done, strip, flags, p.indices, p.descriptors, p.batchStart, more);
    q := p.(indices := more);
  }

  /** One turn of the loop, after its strip has been read. */
  method CompileStep(ghost done: seq<Strip>, strip: Strip, flags: u32, vertices: Vertices, p: Progress)
    returns (r: Result<Progress, Error>)
    requires Represents(p, done, flags, vertices) && |p.indices| <= USIZE_MAX
    ensures r.Ok? <==> CheckVertices(strip.indices, 0, vertices, Skinned(vertices, flags)).Ok?
    ensures r.Err? ==> r.error == CheckVertices(strip.indices, 0, vertices, Skinned(vertices, flags)).error
    ensures r.Ok? ==> Represents(r.value, done + [strip], flags, vertices)
    ensures r.Ok? ==> |r.value.indices| <= |p.indices| + |strip.indices| + 3
  {
    var q;
    if p.previousKey != Some(strip.Key()) {
      q := AppendToNewBatch(done, strip, flags, vertices, p);
    } else {
      q := AppendToOpenBatch(done, strip, flags, vertices, p);
    }
    var included := IncludeVertices(strip.indices, vertices, Skinned(vertices, flags), q.weights);
    if included.Err? {
      return Err(included.error);
    }
    WeighStep(done, strip, vertices, Skinned(vertices, flags), q.weights, included.value, q.bounds);
    r := Ok(q.(weights := included.value,
               previousKey := Some(strip.Key()),
               previousWinding := if |strip.indices| % 2 == 1 then strip.reversed else !strip.reversed));
    assert Last(done + [strip]) == strip;
  }

  /** How far the index list may have outgrown the part of the stream read so far. */
  function Slack(flags: u32, strips: nat): nat {
    if strips == 0 then 0 else Slack(flags, strips - 1) + 3 - DescriptorStride(flags)
  }

  lemma {:induction false} SlackBound(flags: u32, strips: nat)
    ensures Slack(flags, strips) <= 2 * strips
  {
    if strips > 0 {
      SlackBound(flags, strips - 1);
    }
  }

  lemma {:induction false} SlackIsLinear(flags: u32, strips: nat)
    ensures Slack(flags, strips) == (3 - DescriptorStride(flags)) * strips
  {
    if strips > 0 {
      SlackIsLinear(flags, strips - 1);
      OneMore(3 - DescriptorStride(flags), strips - 1);
    }
  }

  lemma {:induction false} CheckTurn(done: seq<Strip>, stream: seq<u32>, cursor: nat, count: nat, flags: u32,
                                     vertices: Vertices)
    requires count > 0
    ensures var read := ReadStrip(stream, cursor, flags);
            var verdict := CheckStrips(done, stream, cursor, count, flags, vertices);
            if read.Err? then verdict == Err(read.error)
            else
              var checked := CheckVertices(read.value.indices, 0, vertices, Skinned(vertices, flags));
              if checked.Err? then verdict == Err(checked.error)
              else
                verdict == CheckStrips(done + [read.value], stream, cursor + StripWords(read.value, flags), count - 1,
                                       flags, vertices)
  {
  }

  lemma {:induction false} CheckEnd(done: seq<Strip>, stream: seq<u32>, cursor: nat, flags: u32, vertices: Vertices)
    ensures CheckStrips(done, stream, cursor, 0, flags, vertices)
            == if cursor == |stream| then Ok(done) else Err(TrailingData)
  {
  }

  lemma {:induction false} SlackStart(flags: u32)
    ensures Slack(flags, 0) == 0 && |START.indices| == 0
  {
  }

  lemma {:induction false} SlackStep(flags: u32, i: nat)
    ensures Slack(flags, i + 1) == Slack(flags, i) + 3 - DescriptorStride(flags)
    ensures forall s: Strip :: StripWords(s, flags) == DescriptorStride(flags) + |s.indices|
  {
  }

  /** The loop of `compile`; the stream length bounds every offset, so no offset overflows. */
  method CompileLoop(stream: seq<u32>, stripCount: u32, flags: u32, vertices: Vertices)
    returns (r: Result<Progress, Error>, ghost done: seq<Strip>)
    requires |stream| + 3 * stripCount <= USIZE_MAX
    ensures r.Ok? ==> |done| == stripCount && Represents(r.value, done, flags, vertices)
    ensures r.Ok? ==> |r.value.indices| <= |stream| + Slack(flags, stripCount)
    ensures CheckStrips([], stream, 0, stripCount, flags, vertices) == if r.Ok? then Ok(done) else Err(r.error)
  {
    hide *;
    var cursor: nat, p := 0, START;
    done := [];
    ghost var verdict := CheckStrips([], stream, 0, stripCount, flags, vertices);
    StartRepresents(flags, vertices);
    SlackStart(flags);
    for i := 0 to stripCount
      invariant cursor <= |stream| && |done| == i
      invariant verdict == CheckStrips(done, stream, cursor, stripCount - i, flags, vertices)
      invariant Represents(p, done, flags, vertices)
      invariant |p.indices| <= cursor + Slack(flags, i)
    {
      SlackBound(flags, i);
      CheckTurn(done, stream, cursor, stripCount - i, flags, vertices);
      var read, end := ReadOne(stream, cursor, flags);
      if read.Err? {
        r := Err(read.error);
        return;
      }
      var step := CompileStep(done, read.value, flags, vertices, p);
      if step.Err? {
        r := step;
        return;
      }
      SlackStep(flags, i);
      p, cursor, done := step.value, end, done + [read.value];
    }
    CheckEnd(done, stream, cursor, flags, vertices);
    r := if cursor == |stream| then Ok(p) else Err(TrailingData);
  }

  method CompileStrips(stream: seq<u32>, stripCount: u32, flags: u32, vertices: Vertices)
    returns (r: Result<Mesh, Error>)
    requires stripCount > 0 && |stream| + 3 * stripCount <= USIZE_MAX
    ensures r.Ok? <==> CheckStrips([], stream, 0, stripCount, flags, vertices).Ok?
    ensures r.Err? ==> r.error == CheckStrips([], stream, 0, stripCount, flags, vertices).error
    ensures r.Ok? ==> Renders(r.value, CheckStrips([], stream, 0, stripCount, flags, vertices).value, flags, vertices)
    ensures r.Ok? ==> |r.value.indices| <= |stream| + Slack(flags, stripCount)
  {
    ghost var done;
    var p;
    p, done := CompileLoop(stream, stripCount, flags, vertices);
    if p.Err? {
      return Err(p.error);
    }
    SlackBound(flags, stripCount);
    CheckedAreRead([], stream, 0, stripCount, flags, vertices);
    EncodeRead(stream, 0, stripCount, flags);
    var mesh := FinishMesh(done, flags, vertices, p.value);
    r := Ok(mesh);
  }

  method FinishMesh(ghost done: seq<Strip>, flags: u32, vertices: Vertices, p: Progress) returns (mesh: Mesh)
    requires done != [] && |p.indices| <= USIZE_MAX && SelectAll(done, flags) == done
    requires Represents(p, done, flags, vertices)
    ensures Renders(mesh, done, flags, vertices) && mesh.indices == p.indices
  {
    var words, records :=
      CloseOpenBatch(done, flags, vertices, p.indices, p.descriptors, p.batchStart, p.weights, p.bounds);
    mesh := Mesh(p.indices, words, records);
    AssembledRenders(done, flags, vertices, mesh);
  }

  lemma {:induction false} DescribedLength(batches: seq<Batch>, flags: u32)
    ensures |Described(batches, flags)| == DescriptorStride(flags) * |batches|
  {
    if batches != [] {
      DescribedLength(batches[1..], flags);
      assert Described(batches, flags) == Descriptor(batches[0], flags) + Described(batches[1..], flags);
      OneMore(DescriptorStride(flags), |batches[1..]|);
    }
  }

  lemma {:induction false} OneMore(stride: nat, count: nat)
    ensures stride * (count + 1) == stride + stride * count
  {
  }
}
