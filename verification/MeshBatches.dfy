/**
 What the mesh compiler produces: adjacent strips with equal selectors become one batch, drawn
 as a single strip. The theorems say that drawing the batches draws the source strips.
 */
module MeshBatches {
  import opened Wrappers
  import opened Words
  import opened TriangleStrips
  import opened StripStream

  // ---------- batches ----------

  function Last<T>(s: seq<T>): T
    requires s != []
  {
    s[|s| - 1]
  }

  function Init<T>(s: seq<T>): seq<T>
    requires s != []
  {
    s[..|s| - 1]
  }

  type Batch = b: seq<Strip> | b != [] witness [RawStrip(false, 0, 0, [0, 0, 0])]

  /** Maximal runs of adjacent strips with equal selectors. */
  function Batches(strips: seq<Strip>): (batches: seq<Batch>)
    ensures strips != [] ==> batches != []
    ensures strips != [] ==> Last(Last(batches)) == Last(strips)
  {
    if strips == [] then []
    else
      var before, strip := Batches(Init(strips)), Last(strips);
      if before != [] && Last(Last(before)).Key() == strip.Key()
      then Init(before) + [Last(before) + [strip]]
      else before + [[strip]]
  }

  function Flatten<T>(lists: seq<seq<T>>): seq<T> {
    if lists == [] then [] else lists[0] + Flatten(lists[1..])
  }

  lemma {:induction false} FlattenConcat<T>(a: seq<seq<T>>, b: seq<seq<T>>)
    ensures Flatten(a + b) == Flatten(a) + Flatten(b)
  {
    if a == [] {
      assert a + b == b;
    } else {
      assert (a + b)[1..] == a[1..] + b;
      FlattenConcat(a[1..], b);
      Associative(a[0], Flatten(a[1..]), Flatten(b));
    }
  }

  lemma {:induction false} FlattenSnoc<T>(a: seq<seq<T>>, x: seq<T>)
    ensures Flatten(a + [x]) == Flatten(a) + x
  {
    FlattenConcat(a, [x]);
    assert Flatten([x]) == x + Flatten<T>([]);
  }

  ghost predicate Uniform(batch: Batch) {
    forall s | s in batch :: s.Key() == batch[0].Key()
  }

  lemma {:induction false} FlattenBatches(strips: seq<Strip>)
    ensures Flatten(Batches(strips)) == strips
  {
    if strips != [] {
      FlattenBatches(Init(strips));
      var before, strip := Batches(Init(strips)), Last(strips);
      assert strips == Init(strips) + [strip];
      if before != [] && Last(Last(before)).Key() == strip.Key() {
        var last := Last(before);
        assert before == Init(before) + [last];
        FlattenSnoc(Init(before), last);
        FlattenSnoc(Init(before), last + [strip]);
        Associative(Flatten(Init(before)), last, [strip]);
      } else {
        FlattenSnoc(before, [strip]);
      }
    }
  }

  lemma {:induction false} BatchesUniform(strips: seq<Strip>)
    ensures forall i | 0 <= i < |Batches(strips)| :: Uniform(Batches(strips)[i])
  {
    if strips != [] {
      BatchesUniform(Init(strips));
      var before, strip := Batches(Init(strips)), Last(strips);
      if before != [] && Last(Last(before)).Key() == strip.Key() {
        var last := Last(before);
        assert Uniform(last) && Last(last) in last;
        assert Uniform(last + [strip]);
        assert forall i | 0 <= i < |before| - 1 :: Init(before)[i] == before[i];
      }
    }
  }

  lemma {:induction false} NeighboursDiffer(strips: seq<Strip>)
    ensures forall i | 0 < i < |Batches(strips)| :: Batches(strips)[i - 1][0].Key() != Batches(strips)[i][0].Key()
  {
    if strips != [] {
      NeighboursDiffer(Init(strips));
      BatchesUniform(Init(strips));
      OneMoreDiffers(Batches(Init(strips)), Last(strips));
    }
  }

  lemma {:induction false} OneMoreDiffers(before: seq<Batch>, strip: Strip)
    requires forall i | 0 <= i < |before| :: Uniform(before[i])
    requires forall i | 0 < i < |before| :: before[i - 1][0].Key() != before[i][0].Key()
    ensures before != [] && Last(Last(before)).Key() == strip.Key() ==>
              var more := Init(before) + [Last(before) + [strip]];
              forall i | 0 < i < |more| :: more[i - 1][0].Key() != more[i][0].Key()
    ensures before != [] && Last(Last(before)).Key() != strip.Key() ==>
              var more := before + [[strip]];
              forall i | 0 < i < |more| :: more[i - 1][0].Key() != more[i][0].Key()
  {
    if before != [] {
      assert Uniform(before[|before| - 1]) && Last(Last(before)) in Last(before);
    }
  }

  /** Batching only regroups: nothing is reordered, batches are uniform, neighbours differ. */
  lemma {:induction false} BatchesRegroup(strips: seq<Strip>)
    ensures Flatten(Batches(strips)) == strips
    ensures forall b | b in Batches(strips) :: Uniform(b)
    ensures forall i | 0 < i < |Batches(strips)| :: Batches(strips)[i - 1][0].Key() != Batches(strips)[i][0].Key()
  {
    FlattenBatches(strips);
    BatchesUniform(strips);
    NeighboursDiffer(strips);
  }

  // ---------- stitching one batch ----------

  /** The winding the next triangle would have after this strip, as the compiler tracks it. */
  function NextWinding(strip: Strip): bool {
    if Odd(|strip.indices|) then strip.reversed else !strip.reversed
  }

  function Stitch(batch: Batch): (indices: seq<u32>)
    ensures |indices| >= 3 && Last(indices) == Last(Last(batch).indices)
  {
    var strip := Last(batch);
    if |batch| == 1 then (if strip.reversed then [strip.indices[0]] else []) + strip.indices
    else
      var before := Stitch(Init(batch));
      before
      + Connector(Last(before), strip.indices[0], NextWinding(Last(Init(batch))) == strip.reversed)
      + strip.indices
  }

  function BatchTriangles(batch: seq<Strip>): seq<Triangle> {
    if batch == [] then [] else BatchTriangles(Init(batch)) + Triangles(Last(batch).indices, Last(batch).reversed)
  }

  /**
   Drawn as one strip, a batch yields the triangles of its strips in order, and the winding flag
   the compiler carries is the parity of what has been written.
   */
  lemma {:induction false} StitchDraws(batch: Batch)
    ensures Triangles(Stitch(batch), false) == BatchTriangles(batch)
    ensures NextWinding(Last(batch)) == !Odd(|Stitch(batch)|)
  {
    var strip := Last(batch);
    if |batch| == 1 {
      StitchFirst(strip);
      assert batch == [strip];
      assert BatchTriangles([strip]) == BatchTriangles([]) + Triangles(strip.indices, strip.reversed);
    } else {
      StitchDraws(Init(batch));
      StitchOne(Stitch(Init(batch)), strip.indices, strip.reversed, NextWinding(Last(Init(batch))) == strip.reversed);
    }
  }

  lemma {:induction false} StitchFirst(strip: Strip)
    ensures Stitch([strip]) == (if strip.reversed then [strip.indices[0]] else []) + strip.indices
    ensures Triangles(Stitch([strip]), false) == Triangles(strip.indices, strip.reversed)
    ensures NextWinding(strip) == !Odd(|Stitch([strip])|)
  {
    if strip.reversed {
      DoubleFirst(strip.indices, false);
    } else {
      assert [] + strip.indices == strip.indices;
    }
  }

  /** The loop step: the connector puts the next strip at a position of the parity its winding needs. */
  lemma {:induction false} StitchOne(written: seq<u32>, indices: seq<u32>, reversed: bool, thrice: bool)
    requires |written| >= 3 && |indices| >= 3 && thrice == (!Odd(|written|) == reversed)
    ensures var stitched := written + Connector(Last(written), indices[0], thrice) + indices;
            && Triangles(stitched, false) == Triangles(written, false) + Triangles(indices, reversed)
            && (if Odd(|indices|) then reversed else !reversed) == !Odd(|stitched|)
  {
    var connector := Connector(Last(written), indices[0], thrice);
    Join(written, indices, thrice, false);
    StartParity(|written|, reversed, thrice);
    OddSum(|written| + |connector|, |indices|);
  }

  lemma {:induction false} StartParity(written: nat, reversed: bool, thrice: bool)
    requires thrice == (!Odd(written) == reversed)
    ensures Odd(written + if thrice then 3 else 2) == reversed
  {
  }

  // ---------- the whole mesh ----------

  function Stitched(batches: seq<Batch>): seq<u32> {
    if batches == [] then [] else Stitch(batches[0]) + Stitched(batches[1..])
  }

  function Descriptor(batch: Batch, flags: u32): (words: seq<nat>)
    ensures |words| == DescriptorStride(flags)
  {
    [|Stitch(batch)|] + SelectorWords(batch[0].Key(), flags)
  }

  /** A batch's descriptor under each of the flag words an FMOD object is drawn with. */
  lemma {:induction false} DescriptorWords(batch: Batch)
    ensures Descriptor(batch, 0x2_1000) == [|Stitch(batch)|]
    ensures Descriptor(batch, 0x12_1000) == [|Stitch(batch)|, batch[0].material]
    ensures Descriptor(batch, 0x22_1000) == [|Stitch(batch)|, batch[0].variant]
    ensures Descriptor(batch, 0x32_1000) == [|Stitch(batch)|, batch[0].material, batch[0].variant]
  {
    hide Stitch;
    var key := batch[0].Key();
    assert SelectorWords(key, 0x2_1000) == [] && SelectorWords(key, 0x12_1000) == [key.material];
    assert SelectorWords(key, 0x22_1000) == [key.variant];
    assert SelectorWords(key, 0x32_1000) == [key.material, key.variant];
  }

  function Described(batches: seq<Batch>, flags: u32): seq<nat> {
    if batches == [] then [] else Descriptor(batches[0], flags) + Described(batches[1..], flags)
  }

  lemma {:induction false} StitchedSnoc(batches: seq<Batch>, batch: Batch)
    ensures Stitched(batches + [batch]) == Stitched(batches) + Stitch(batch)
  {
    if batches == [] {
      assert Stitched([batch]) == Stitch(batch) + Stitched([]);
      assert [] + [batch] == [batch];
    } else {
      assert (batches + [batch])[1..] == batches[1..] + [batch];
      StitchedSnoc(batches[1..], batch);
      Associative(Stitch(batches[0]), Stitched(batches[1..]), Stitch(batch));
    }
  }

  lemma {:induction false} DescribedSnoc(batches: seq<Batch>, batch: Batch, flags: u32)
    ensures Described(batches + [batch], flags) == Described(batches, flags) + Descriptor(batch, flags)
  {
    if batches == [] {
      assert Described([batch], flags) == Descriptor(batch, flags) + Described([], flags);
      assert [] + [batch] == [batch];
    } else {
      assert (batches + [batch])[1..] == batches[1..] + [batch];
      DescribedSnoc(batches[1..], batch, flags);
      Associative(Descriptor(batches[0], flags), Described(batches[1..], flags), Descriptor(batch, flags));
    }
  }

  // ---------- drawing ----------

  function Tag(key: Key, triangles: seq<Triangle>): seq<(Key, Triangle)> {
    seq(|triangles|, i requires 0 <= i < |triangles| => (key, triangles[i]))
  }

  /** What the source strips draw: each triangle with its material and variant. */
  function Tagged(strips: seq<Strip>): seq<(Key, Triangle)> {
    if strips == [] then []
    else Tag(strips[0].Key(), Triangles(strips[0].indices, strips[0].reversed)) + Tagged(strips[1..])
  }

  /** What the renderer draws: descriptors consume the index list, each as one triangle strip. */
  function Draw(descriptors: seq<u32>, indices: seq<u32>, flags: u32): seq<(Key, Triangle)> {
    var stride := DescriptorStride(flags);
    if |descriptors| < stride || descriptors[0] > |indices| then []
    else Tag(KeyAt(descriptors, 0, flags), Triangles(indices[..descriptors[0]], false))
         + Draw(descriptors[stride..], indices[descriptors[0]..], flags)
  }

  /** The descriptor lengths cut the index list into batches with nothing left over. */
  ghost predicate Partitions(descriptors: seq<u32>, indices: seq<u32>, flags: u32) {
    var stride := DescriptorStride(flags);
    if descriptors == [] then indices == []
    else
      && |descriptors| >= stride
      && 3 <= descriptors[0] <= |indices|
      && Partitions(descriptors[stride..], indices[descriptors[0]..], flags)
  }

  lemma {:induction false} TagConcat(key: Key, a: seq<Triangle>, b: seq<Triangle>)
    ensures Tag(key, a + b) == Tag(key, a) + Tag(key, b)
  {
  }

  lemma {:induction false} TaggedConcat(a: seq<Strip>, b: seq<Strip>)
    ensures Tagged(a + b) == Tagged(a) + Tagged(b)
  {
    if a == [] {
      assert a + b == b;
    } else {
      assert (a + b)[1..] == a[1..] + b;
      TaggedConcat(a[1..], b);
      Associative(Tag(a[0].Key(), Triangles(a[0].indices, a[0].reversed)), Tagged(a[1..]), Tagged(b));
    }
  }

  lemma {:induction false} TaggedBatch(batch: seq<Strip>, key: Key)
    requires forall s | s in batch :: s.Key() == key
    ensures Tagged(batch) == Tag(key, BatchTriangles(batch))
  {
    if batch != [] {
      var strip := Last(batch);
      assert strip in batch;
      TaggedBatch(Init(batch), key);
      assert batch == Init(batch) + [strip];
      TaggedConcat(Init(batch), [strip]);
      var triangles := Triangles(strip.indices, strip.reversed);
      assert Tagged([strip]) == Tag(key, triangles) + Tagged([]);
      TagConcat(key, BatchTriangles(Init(batch)), triangles);
    }
  }

  predicate Representable(words: seq<nat>) {
    forall i | 0 <= i < |words| :: words[i] < 0x1_0000_0000
  }

  function AsWords(words: seq<nat>): seq<u32>
    requires Representable(words)
  {
    words
  }

  /** Drawing the assembled mesh draws every batch's strips, tagged with its selectors. */
  lemma {:induction false} DrawAssembled(batches: seq<Batch>, flags: u32)
    requires forall b | b in batches :: Uniform(b)
    requires forall b, s | b in batches && s in b :: Selected(s, flags) == s
    requires Representable(Described(batches, flags))
    ensures Draw(AsWords(Described(batches, flags)), Stitched(batches), flags) == Tagged(Flatten(batches))
    ensures Partitions(AsWords(Described(batches, flags)), Stitched(batches), flags)
  {
    if batches != [] {
      var batch, rest := batches[0], batches[1..];
      assert Described(batches, flags) == Descriptor(batch, flags) + Described(rest, flags);
      assert Representable(Described(rest, flags)) by {
        assert forall i | 0 <= i < |Described(rest, flags)| ::
          Described(rest, flags)[i] == Described(batches, flags)[i + DescriptorStride(flags)];
      }
      DrawAssembled(rest, flags);
      assert batch in batches && batch[0] in batch;
      DrawBatch(batch, Described(rest, flags), Stitched(rest), flags);
      StitchDraws(batch);
      TaggedBatch(batch, batch[0].Key());
      TaggedConcat(batch, Flatten(rest));
    }
  }

  /** The renderer's first step undoes the assembly of the first batch. */
  lemma {:induction false} DrawBatch(batch: Batch, words: seq<nat>, indices: seq<u32>, flags: u32)
    requires Selected(batch[0], flags) == batch[0]
    requires Representable(Descriptor(batch, flags) + words) && Representable(words)
    ensures Draw(AsWords(Descriptor(batch, flags) + words), Stitch(batch) + indices, flags)
            == Tag(batch[0].Key(), Triangles(Stitch(batch), false)) + Draw(AsWords(words), indices, flags)
    ensures Partitions(AsWords(Descriptor(batch, flags) + words), Stitch(batch) + indices, flags)
            == Partitions(AsWords(words), indices, flags)
  {
    var all: seq<u32> := AsWords(Descriptor(batch, flags) + words);
    var stride := DescriptorStride(flags);
    var selectors := SelectorWords(batch[0].Key(), flags);
    assert all[0] == |Stitch(batch)|;
    assert all[stride..] == words;
    assert forall i | 0 <= i < stride - 1 :: all[1 + i] == selectors[i];
    assert KeyAt(all, 0, flags) == batch[0].Key();
    assert (Stitch(batch) + indices)[..|Stitch(batch)|] == Stitch(batch);
    assert (Stitch(batch) + indices)[|Stitch(batch)|..] == indices;
  }

  // ---------- sizes ----------

  function IndexCount(strips: seq<Strip>): nat {
    if strips == [] then 0 else |strips[0].indices| + IndexCount(strips[1..])
  }

  lemma {:induction false} IndexCountConcat(a: seq<Strip>, b: seq<Strip>)
    ensures IndexCount(a + b) == IndexCount(a) + IndexCount(b)
  {
    if a == [] {
      assert a + b == b;
    } else {
      assert (a + b)[1..] == a[1..] + b;
      IndexCountConcat(a[1..], b);
    }
  }

  lemma {:induction false} StitchBound(batch: Batch)
    ensures IndexCount(batch) <= |Stitch(batch)| <= IndexCount(batch) + 3 * |batch| - 2
  {
    var strip := Last(batch);
    assert batch == Init(batch) + [strip];
    IndexCountConcat(Init(batch), [strip]);
    if |batch| > 1 {
      StitchBound(Init(batch));
    }
  }

  lemma {:induction false} StitchedBound(batches: seq<Batch>)
    ensures IndexCount(Flatten(batches)) <= |Stitched(batches)| <= IndexCount(Flatten(batches)) + 3 * |Flatten(batches)|
  {
    if batches != [] {
      StitchBound(batches[0]);
      StitchedBound(batches[1..]);
      IndexCountConcat(batches[0], Flatten(batches[1..]));
    }
  }

  lemma {:induction false} EncodedLength(strips: seq<Strip>, flags: u32)
    ensures |Encode(strips, flags)| == DescriptorStride(flags) * |strips| + IndexCount(strips)
  {
    if strips != [] {
      EncodedLength(strips[1..], flags);
    }
  }

  /** The index list never outgrows the stream by more than the connectors that replace headers. */
  lemma {:induction false} IndexListBound(strips: seq<Strip>, flags: u32)
    ensures |Stitched(Batches(strips))| <= |Encode(strips, flags)| + (3 - DescriptorStride(flags)) * |strips|
  {
    BatchesRegroup(strips);
    StitchedBound(Batches(strips));
    EncodedLength(strips, flags);
  }
}
