/**
 From an FMOD object's face block to the strip stream and on through the mesh compiler
 (geometry/src/fmod.rs: `geometry`, `encoded_size`, `encode_into`).
 */
module FmodGeometry {
  import opened Wrappers
  import opened Words
  import opened TriangleStrips
  import S = StripStream
  import B = MeshBatches
  import M = MeshCompiler
  import opened FmodBlocks

  /** A strip of the source: its indices are `count` unaligned words at `start`. */
  datatype SourceStrip = SourceStrip(reversed: bool, material: u32, variant: u32, start: nat, count: nat) {
    predicate In(source: seq<byte>) {
      3 <= count < 0x8000_0000 && start + 4 * count <= |source|
    }
  }

  datatype Geometry = Geometry(vertexCount: u32, strips: seq<SourceStrip>)

  function Indices(source: seq<byte>, strip: SourceStrip): (indices: seq<u32>)
    requires strip.In(source)
    ensures |indices| == strip.count
  {
    seq(strip.count, k requires 0 <= k < strip.count => WordAt(source, strip.start + 4 * k))
  }

  function Decoded(source: seq<byte>, strip: SourceStrip): S.Strip
    requires strip.In(source)
  {
    S.RawStrip(strip.reversed, strip.material, strip.variant, Indices(source, strip))
  }

  ghost predicate AllIn(source: seq<byte>, strips: seq<SourceStrip>) {
    forall i | 0 <= i < |strips| :: strips[i].In(source)
  }

  function DecodedAll(source: seq<byte>, strips: seq<SourceStrip>): (decoded: seq<S.Strip>)
    requires AllIn(source, strips)
    ensures |decoded| == |strips|
  {
    seq(|strips|, i requires 0 <= i < |strips| => Decoded(source, strips[i]))
  }

  // ---------- reading ----------

  function CheckIndices(source: seq<byte>, start: nat, count: nat, vertexCount: u32): Result<(), Error>
    requires start + 4 * count <= |source|
    decreases count
  {
    if count == 0 then Ok(())
    else if WordAt(source, start) >= vertexCount then Err(VertexIndex(WordAt(source, start)))
    else CheckIndices(source, start + 4, count - 1, vertexCount)
  }

  function Material(source: seq<byte>, table: Option<Block>, ordinal: nat): Result<u32, Error>
    requires table.Some? ==> table.value.In(source)
  {
    if table.None? then Ok(0)
    else if ordinal >= table.value.count then Err(ShortMaterialMap)
    else ReadWord(source, table.value.start + HEADER + 4 * ordinal, table.value.end)
  }

  /** One strip at `cursor`, the `ordinal`-th of its object. */
  function ReadStrip(source: seq<byte>, cursor: nat, limit: nat, ordinal: nat, variant: u32, table: Option<Block>,
                     vertexCount: u32): (r: Result<SourceStrip, Error>)
    requires limit <= |source| && (table.Some? ==> table.value.In(source))
    ensures r.Ok? ==> r.value.In(source) && r.value.start == cursor + 4 && r.value.start + 4 * r.value.count <= limit
  {
    match ReadWord(source, cursor, limit)
    case Err(error) => Err(error)
    case Ok(packed) =>
      var count := packed % 0x8000_0000;
      var start := cursor + 4;
      if count < 3 || count > (limit - start) / 4 then Err(StripLength)
      else
        match Material(source, table, ordinal)
        case Err(error) => Err(error)
        case Ok(material) =>
          if material > 0xffff then Err(MaterialIdentifier)
          else
            match CheckIndices(source, start, count, vertexCount)
            case Err(error) => Err(error)
            case Ok(_) => Ok(SourceStrip(packed >= 0x8000_0000, material, variant, start, count))
  }

  function ReadStrips(source: seq<byte>, cursor: nat, limit: nat, count: nat, strips: seq<SourceStrip>, variant: u32,
                      table: Option<Block>, vertexCount: u32): Result<seq<SourceStrip>, Error>
    requires limit <= |source| && (table.Some? ==> table.value.In(source))
    decreases count
  {
    if count == 0 then Ok(strips)
    else
      match ReadStrip(source, cursor, limit, |strips|, variant, table, vertexCount)
      case Err(error) => Err(error)
      case Ok(strip) =>
        ReadStrips(source, strip.start + 4 * strip.count, limit, count - 1,
                   strips + [strip], variant, table, vertexCount)
  }

  function ReadGroup(source: seq<byte>, table: Option<Block>, vertexCount: u32, strips: seq<SourceStrip>, group: Block)
    : Result<seq<SourceStrip>, Error>
    requires table.Some? ==> table.value.In(source)
  {
    if group.kind != 0x30000 && group.kind != 0x40000 then Err(UnsupportedStripBlock(group.kind))
    else if !group.In(source) || group.count > (group.end - group.start - HEADER) / 16 then Err(StripCountExceedsBlock)
    else
      ReadStrips(source, group.start + HEADER, group.end, group.count, strips,
                 if group.kind == 0x40000 then 1 else 0, table, vertexCount)
  }

  /** The attribute blocks of one object that its geometry is read from. */
  datatype ObjectBlocks = ObjectBlocks(face: Option<Block>, materials: Option<Block>, positions: Option<Block>) {
    predicate In(source: seq<byte>) {
      && (face.Some? ==> face.value.In(source))
      && (materials.Some? ==> materials.value.In(source))
      && (positions.Some? ==> positions.value.In(source))
    }
  }

  /** What a geometry promises: strips inside the source, valid indices, selectors of the native width. */
  ghost predicate Drawable(source: seq<byte>, geometry: Geometry) {
    && geometry.strips != [] && geometry.vertexCount > 0
    && AllIn(source, geometry.strips)
    && forall i | 0 <= i < |geometry.strips| :: StripOk(source, geometry.strips[i], geometry.vertexCount)
  }

  ghost predicate StripOk(source: seq<byte>, strip: SourceStrip, vertexCount: u32)
    requires strip.In(source)
  {
    && strip.material <= 0xffff && strip.variant <= 1
    && forall k | 0 <= k < strip.count :: Indices(source, strip)[k] < vertexCount
  }

  ghost predicate StripsOk(source: seq<byte>, strips: seq<SourceStrip>, vertexCount: u32) {
    AllIn(source, strips) && forall i | 0 <= i < |strips| :: StripOk(source, strips[i], vertexCount)
  }

  lemma {:induction false} CheckedIndices(source: seq<byte>, start: nat, count: nat, vertexCount: u32, k: nat)
    requires start + 4 * count <= |source| && k < count
    requires CheckIndices(source, start, count, vertexCount).Ok?
    ensures WordAt(source, start + 4 * k) < vertexCount
    decreases count
  {
    if k > 0 {
      CheckedIndices(source, start + 4, count - 1, vertexCount, k - 1);
    }
  }

  lemma {:induction false} ReadStripIsOk(source: seq<byte>, cursor: nat, limit: nat, ordinal: nat, variant: u32,
                                         table: Option<Block>, vertexCount: u32)
    requires limit <= |source| && (table.Some? ==> table.value.In(source)) && variant <= 1
    requires ReadStrip(source, cursor, limit, ordinal, variant, table, vertexCount).Ok?
    ensures StripOk(source, ReadStrip(source, cursor, limit, ordinal, variant, table, vertexCount).value, vertexCount)
  {
    var strip := ReadStrip(source, cursor, limit, ordinal, variant, table, vertexCount).value;
    forall k | 0 <= k < strip.count ensures Indices(source, strip)[k] < vertexCount {
      CheckedIndices(source, strip.start, strip.count, vertexCount, k);
    }
  }

  method CheckStripIndices(source: seq<byte>, start: nat, count: nat, vertexCount: u32) returns (r: Result<(), Error>)
    requires start + 4 * count <= |source|
    ensures r == CheckIndices(source, start, count, vertexCount)
  {
    for k := 0 to count
      invariant CheckIndices(source, start, count, vertexCount)
             == CheckIndices(source, start + 4 * k, count - k, vertexCount)
    {
      var index := WordAt(source, start + 4 * k);
      if index >= vertexCount {
        return Err(VertexIndex(index));
      }
    }
    r := Ok(());
  }

  lemma {:induction false} StripsAreOk(source: seq<byte>, strips: seq<SourceStrip>, vertexCount: u32)
    ensures StripsOk(source, strips, vertexCount)
            <==> AllIn(source, strips) && forall i | 0 <= i < |strips| :: StripOk(source, strips[i], vertexCount)
  {
  }

  lemma {:induction false} OneMoreStrip(source: seq<byte>, strips: seq<SourceStrip>, strip: SourceStrip,
                                        vertexCount: u32)
    requires StripsOk(source, strips, vertexCount) && strip.In(source) && StripOk(source, strip, vertexCount)
    ensures StripsOk(source, strips + [strip], vertexCount)
  {
  }

  /** One strip group: every strip it reads is inside the source and draws existing vertices. */
  method AddGroup(source: seq<byte>, table: Option<Block>, vertexCount: u32, before: seq<SourceStrip>, group: Block)
    returns (r: Result<seq<SourceStrip>, Error>)
    requires group.In(source) && (table.Some? ==> table.value.In(source))
    requires StripsOk(source, before, vertexCount)
    ensures r == ReadGroup(source, table, vertexCount, before, group)
    ensures r.Ok? ==> StripsOk(source, r.value, vertexCount) && before <= r.value && |r.value| == |before| + group.count
  {
    hide StripOk, WordAt, ReadStrip;
    var variant: u32;
    if group.kind == 0x30000 {
      variant := 0;
    } else if group.kind == 0x40000 {
      variant := 1;
    } else {
      return Err(UnsupportedStripBlock(group.kind));
    }
    var cursor: nat := group.start + HEADER;
    if group.count > (group.end - group.start - HEADER) / 16 {
      return Err(StripCountExceedsBlock);
    }
    var strips := before;
    ghost var verdict := ReadGroup(source, table, vertexCount, before, group);
    for i := 0 to group.count
      invariant StripsOk(source, strips, vertexCount) && before <= strips && |strips| == |before| + i
      invariant verdict == ReadStrips(source, cursor, group.end, group.count - i, strips, variant, table, vertexCount)
    {
      var strip := AddStrip(source, cursor, group.end, |strips|, variant, table, vertexCount);
      if strip.Err? {
        return Err(strip.error);
      }
      OneMoreStrip(source, strips, strip.value, vertexCount);
      cursor := strip.value.start + 4 * strip.value.count;
      strips := strips + [strip.value];
    }
    r := Ok(strips);
  }

  method AddStrip(source: seq<byte>, cursor: nat, limit: nat, ordinal: nat, variant: u32, table: Option<Block>,
                  vertexCount: u32)
    returns (r: Result<SourceStrip, Error>)
    requires limit <= |source| && (table.Some? ==> table.value.In(source)) && variant <= 1
    ensures r == ReadStrip(source, cursor, limit, ordinal, variant, table, vertexCount)
    ensures r.Ok? ==> StripOk(source, r.value, vertexCount)
  {
    var packed := ReadWord(source, cursor, limit);
    if packed.Err? {
      return Err(packed.error);
    }
    var count := packed.value % 0x8000_0000;
    var start := cursor + 4;
    if count < 3 || count > (limit - start) / 4 {
      return Err(StripLength);
    }
    var material := Material(source, table, ordinal);
    if material.Err? {
      return Err(material.error);
    }
    if material.value > 0xffff {
      return Err(MaterialIdentifier);
    }
    var checked := CheckStripIndices(source, start, count, vertexCount);
    if checked.Err? {
      return Err(checked.error);
    }
    r := Ok(SourceStrip(packed.value >= 0x8000_0000, material.value, variant, start, count));
    ReadStripIsOk(source, cursor, limit, ordinal, variant, table, vertexCount);
  }

  /** The outcome of reading an object's geometry. */
  function ReadGeometry(source: seq<byte>, blocks: ObjectBlocks): Result<Geometry, Error>
    requires blocks.In(source)
  {
    if blocks.positions.None? then Err(NoVertexBlock)
    else
      var vertices := blocks.positions.value;
      if vertices.count > (vertices.end - vertices.start - HEADER) / 12 then Err(TruncatedVertices)
      else if blocks.face.None? then Err(NoFaceBlock)
      else
        match Visited(Children(source, blocks.face.value), [],
                      (strips, group) => ReadGroup(source, blocks.materials, vertices.count, strips, group))
        case Err(error) => Err(error)
        case Ok(strips) =>
          if strips == [] || vertices.count == 0 then Err(NothingToDraw) else Ok(Geometry(vertices.count, strips))
  }

  // ---------- what the words of the source say ----------

  /** The strip is the `ordinal`-th of its object, told by the words around it in its group. */
  ghost predicate StripSays(source: seq<byte>, group: Block, table: Option<Block>, vertexCount: u32, ordinal: nat,
                            strip: SourceStrip)
    requires group.In(source) && (table.Some? ==> table.value.In(source))
  {
    && group.start + 16 <= strip.start && 3 <= strip.count < 0x8000_0000 && strip.start + 4 * strip.count <= group.end
    && WordAt(source, strip.start - 4) == strip.count + (if strip.reversed then 0x8000_0000 else 0)
    && strip.variant == (if group.kind == 0x40000 then 1 else 0)
    && (table.None? ==> strip.material == 0)
    && (table.Some? ==>
          && ordinal < table.value.count && table.value.start + 12 + 4 * ordinal + 4 <= table.value.end
          && strip.material == WordAt(source, table.value.start + 12 + 4 * ordinal))
    && strip.material <= 0xffff
    && forall k | 0 <= k < strip.count :: WordAt(source, strip.start + 4 * k) < vertexCount
  }

  /** `count` strips from `first` on adjoin from `cursor` on: each has its header where the one before it ends. */
  ghost predicate RunSays(source: seq<byte>, group: Block, table: Option<Block>, vertexCount: u32,
                          strips: seq<SourceStrip>, first: nat, count: nat, cursor: nat)
    requires group.In(source) && (table.Some? ==> table.value.In(source))
  {
    && first + count <= |strips|
    && (count > 0 ==> strips[first].start - 4 == cursor)
    && (forall i: nat | first < i < first + count ::
          strips[i].start - 4 == strips[i - 1].start + 4 * strips[i - 1].count)
    && forall i: nat | first <= i < first + count :: StripSays(source, group, table, vertexCount, i, strips[i])
  }

  /** The strips of one group follow its header. */
  ghost predicate GroupSays(source: seq<byte>, group: Block, table: Option<Block>, vertexCount: u32,
                            strips: seq<SourceStrip>, first: nat)
    requires group.In(source) && (table.Some? ==> table.value.In(source))
  {
    && (group.kind == 0x30000 || group.kind == 0x40000)
    && RunSays(source, group, table, vertexCount, strips, first, group.count, group.start + 12)
  }

  /** How many strips the first `n` groups announce. */
  function StripsBefore(groups: seq<Block>, n: nat): nat
    requires n <= |groups|
  {
    if n == 0 then 0 else StripsBefore(groups, n - 1) + groups[n - 1].count
  }

  /** A drawable object and its geometry: every group of the face in order, every strip of a group in order. */
  ghost predicate GeometrySays(source: seq<byte>, blocks: ObjectBlocks, geometry: Geometry)
    requires blocks.In(source)
  {
    && blocks.positions.Some? && blocks.face.Some? && Children(source, blocks.face.value).Ok?
    && var vertices, groups := blocks.positions.value, Children(source, blocks.face.value).value;
    && geometry.vertexCount == vertices.count && vertices.start + 12 + 12 * vertices.count <= vertices.end
    && vertices.count > 0 && geometry.strips != []
    && |geometry.strips| == StripsBefore(groups, |groups|)
    && forall g: nat | g < |groups| ::
         GroupSays(source, groups[g], blocks.materials, vertices.count, geometry.strips, StripsBefore(groups, g))
  }

  lemma {:induction false} ChecksIndices(source: seq<byte>, start: nat, count: nat, vertexCount: u32)
    requires start + 4 * count <= |source|
    requires forall k | 0 <= k < count :: WordAt(source, start + 4 * k) < vertexCount
    ensures CheckIndices(source, start, count, vertexCount).Ok?
    decreases count
  {
    hide WordAt;
    if count > 0 {
      assert WordAt(source, start + 4 * 0) < vertexCount;
      forall k | 0 <= k < count - 1 ensures WordAt(source, start + 4 + 4 * k) < vertexCount {
        assert start + 4 + 4 * k == start + 4 * (k + 1);
      }
      ChecksIndices(source, start + 4, count - 1, vertexCount);
    }
  }

  lemma {:induction false} ReadStripSays(source: seq<byte>, group: Block, cursor: nat, ordinal: nat,
                                         table: Option<Block>, vertexCount: u32, strip: SourceStrip)
    requires group.In(source) && (table.Some? ==> table.value.In(source)) && group.start + 12 <= cursor
    ensures ReadStrip(source, cursor, group.end, ordinal, if group.kind == 0x40000 then 1 else 0, table, vertexCount)
            == Ok(strip)
            <==> strip.start - 4 == cursor && StripSays(source, group, table, vertexCount, ordinal, strip)
  {
    hide WordAt;
    var variant: u32 := if group.kind == 0x40000 then 1 else 0;
    var read := ReadStrip(source, cursor, group.end, ordinal, variant, table, vertexCount);
    if read == Ok(strip) {
      forall k | 0 <= k < strip.count ensures WordAt(source, strip.start + 4 * k) < vertexCount {
        CheckedIndices(source, strip.start, strip.count, vertexCount, k);
      }
    }
    if strip.start - 4 == cursor && StripSays(source, group, table, vertexCount, ordinal, strip) {
      ChecksIndices(source, strip.start, strip.count, vertexCount);
    }
  }

  lemma {:induction false} RunStep(source: seq<byte>, group: Block, table: Option<Block>, vertexCount: u32,
                                   strips: seq<SourceStrip>, first: nat, count: nat, cursor: nat)
    requires group.In(source) && (table.Some? ==> table.value.In(source))
    requires count > 0 && first < |strips|
    ensures RunSays(source, group, table, vertexCount, strips, first, count, cursor)
            <==> && StripSays(source, group, table, vertexCount, first, strips[first])
                 && strips[first].start - 4 == cursor
                 && RunSays(source, group, table, vertexCount, strips, first + 1, count - 1,
                            strips[first].start + 4 * strips[first].count)
  {
    hide StripSays;
    var next := strips[first].start + 4 * strips[first].count;
    if && StripSays(source, group, table, vertexCount, first, strips[first]) && strips[first].start - 4 == cursor
       && RunSays(source, group, table, vertexCount, strips, first + 1, count - 1, next) {
      forall i: nat | first < i < first + count
        ensures strips[i].start - 4 == strips[i - 1].start + 4 * strips[i - 1].count
      {
        assert i > first + 1 ==> first + 1 < i < first + 1 + (count - 1);
      }
    }
  }

  lemma {:induction false} ReadStripsSay(source: seq<byte>, group: Block, cursor: nat, count: nat,
                                         before: seq<SourceStrip>, table: Option<Block>, vertexCount: u32,
                                         strips: seq<SourceStrip>)
    requires group.In(source) && (table.Some? ==> table.value.In(source)) && group.start + 12 <= cursor
    ensures ReadStrips(source, cursor, group.end, count, before, if group.kind == 0x40000 then 1 else 0, table,
                       vertexCount) == Ok(strips)
            <==> && before <= strips && |strips| == |before| + count
                 && RunSays(source, group, table, vertexCount, strips, |before|, count, cursor)
    decreases count
  {
    hide ReadStrip, StripSays, RunSays;
    var variant: u32 := if group.kind == 0x40000 then 1 else 0;
    if count == 0 {
      EmptyRun(source, group, table, vertexCount, strips, |before|, cursor);
      assert before <= strips && |strips| == |before| ==> before == strips;
    } else {
      var read := ReadStrip(source, cursor, group.end, |before|, variant, table, vertexCount);
      if read.Ok? {
        var strip := read.value;
        ReadStripSays(source, group, cursor, |before|, table, vertexCount, strip);
        var next := strip.start + 4 * strip.count;
        ReadStripsSay(source, group, next, count - 1, before + [strip], table, vertexCount, strips);
      }
      if |before| < |strips| {
        ReadStripSays(source, group, cursor, |before|, table, vertexCount, strips[|before|]);
        RunStep(source, group, table, vertexCount, strips, |before|, count, cursor);
        assert before <= strips ==> before + [strips[|before|]] <= strips;
      }
    }
  }

  lemma {:induction false} EmptyRun(source: seq<byte>, group: Block, table: Option<Block>, vertexCount: u32,
                                    strips: seq<SourceStrip>, first: nat, cursor: nat)
    requires group.In(source) && (table.Some? ==> table.value.In(source))
    ensures RunSays(source, group, table, vertexCount, strips, first, 0, cursor) <==> first <= |strips|
  {
  }

  /** A strip takes at least sixteen bytes. */
  lemma {:induction false} RunFits(source: seq<byte>, group: Block, table: Option<Block>, vertexCount: u32,
                                   strips: seq<SourceStrip>, first: nat, count: nat, cursor: nat)
    requires group.In(source) && (table.Some? ==> table.value.In(source)) && cursor <= group.end
    requires RunSays(source, group, table, vertexCount, strips, first, count, cursor)
    ensures cursor + 16 * count <= group.end
    decreases count
  {
    if count > 0 {
      RunStep(source, group, table, vertexCount, strips, first, count, cursor);
      RunFits(source, group, table, vertexCount, strips, first + 1, count - 1,
              strips[first].start + 4 * strips[first].count);
    }
  }

  lemma {:induction false} ReadGroupSays(source: seq<byte>, group: Block, table: Option<Block>, vertexCount: u32,
                                         before: seq<SourceStrip>, strips: seq<SourceStrip>)
    requires group.In(source) && (table.Some? ==> table.value.In(source))
    ensures ReadGroup(source, table, vertexCount, before, group) == Ok(strips)
            <==> && before <= strips && |strips| == |before| + group.count
                 && GroupSays(source, group, table, vertexCount, strips, |before|)
  {
    hide RunSays, ReadStrips;
    ReadStripsSay(source, group, group.start + 12, group.count, before, table, vertexCount, strips);
    if RunSays(source, group, table, vertexCount, strips, |before|, group.count, group.start + 12) {
      RunFits(source, group, table, vertexCount, strips, |before|, group.count, group.start + 12);
    }
  }

  lemma {:induction false} GroupPrefix(source: seq<byte>, group: Block, table: Option<Block>, vertexCount: u32,
                                       strips: seq<SourceStrip>, more: seq<SourceStrip>, first: nat)
    requires group.In(source) && (table.Some? ==> table.value.In(source))
    requires strips <= more && first + group.count <= |strips|
    ensures GroupSays(source, group, table, vertexCount, strips, first)
            <==> GroupSays(source, group, table, vertexCount, more, first)
  {
    hide RunSays;
    if RunSays(source, group, table, vertexCount, strips, first, group.count, group.start + 12) {
      RunPrefix(source, group, table, vertexCount, strips, more, first, group.count, group.start + 12);
    }
    if RunSays(source, group, table, vertexCount, more, first, group.count, group.start + 12) {
      RunPrefix(source, group, table, vertexCount, more, strips, first, group.count, group.start + 12);
    }
  }

  lemma {:induction false} RunPrefix(source: seq<byte>, group: Block, table: Option<Block>, vertexCount: u32,
                                     strips: seq<SourceStrip>, more: seq<SourceStrip>, first: nat, count: nat,
                                     cursor: nat)
    requires group.In(source) && (table.Some? ==> table.value.In(source))
    requires first + count <= |strips| && first + count <= |more| && strips[..first + count] == more[..first + count]
    requires RunSays(source, group, table, vertexCount, strips, first, count, cursor)
    ensures RunSays(source, group, table, vertexCount, more, first, count, cursor)
  {
    hide StripSays;
    assert forall i | 0 <= i < first + count :: strips[i] == strips[..first + count][i] == more[i];
  }

  lemma {:induction false} StripsBeforeGrow(groups: seq<Block>, n: nat, m: nat)
    requires n <= m <= |groups|
    ensures StripsBefore(groups, n) <= StripsBefore(groups, m)
  {
    if n < m {
      StripsBeforeGrow(groups, n, m - 1);
    }
  }

  lemma {:induction false} FoldSays(source: seq<byte>, table: Option<Block>, vertexCount: u32,
                                    visit: (seq<SourceStrip>, Block) -> Result<seq<SourceStrip>, Error>,
                                    groups: seq<Block>, n: nat, before: seq<SourceStrip>, strips: seq<SourceStrip>)
    requires (table.Some? ==> table.value.In(source)) && forall b | b in groups :: b.In(source)
    requires forall s, b :: visit(s, b) == ReadGroup(source, table, vertexCount, s, b)
    requires n <= |groups| && |before| == StripsBefore(groups, n)
    ensures Fold(groups[n..], before, visit) == Ok(strips)
            <==> && before <= strips && |strips| == StripsBefore(groups, |groups|)
                 && forall g: nat | n <= g < |groups| ::
                      GroupSays(source, groups[g], table, vertexCount, strips, StripsBefore(groups, g))
    decreases |groups| - n
  {
    hide ReadGroup, GroupSays;
    if n == |groups| {
      assert groups[n..] == [];
      assert before <= strips && |strips| == |before| ==> before == strips;
    } else {
      var group := groups[n];
      assert groups[n..][0] == group && groups[n..][1..] == groups[n + 1..];
      StripsBeforeGrow(groups, n + 1, |groups|);
      var read := ReadGroup(source, table, vertexCount, before, group);
      if read.Ok? {
        ReadGroupSays(source, group, table, vertexCount, before, read.value);
        FoldSays(source, table, vertexCount, visit, groups, n + 1, read.value, strips);
        if read.value <= strips {
          GroupPrefix(source, group, table, vertexCount, read.value, strips, |before|);
        }
      }
      if before <= strips && |strips| == StripsBefore(groups, |groups|) {
        var next := strips[..|before| + group.count];
        ReadGroupSays(source, group, table, vertexCount, before, next);
        GroupPrefix(source, group, table, vertexCount, next, strips, |before|);
      }
    }
  }

  /** An object's geometry is read exactly when the words of its blocks say it. */
  lemma {:induction false} GeometryIsSaid(source: seq<byte>, blocks: ObjectBlocks, geometry: Geometry)
    requires blocks.In(source)
    ensures ReadGeometry(source, blocks) == Ok(geometry) <==> GeometrySays(source, blocks, geometry)
  {
    hide ReadGroup, GroupSays, Children, Fold;
    if blocks.positions.Some? && blocks.face.Some? && Children(source, blocks.face.value).Ok? {
      var vertices, groups := blocks.positions.value, Children(source, blocks.face.value).value;
      var visit := (strips, group) => ReadGroup(source, blocks.materials, vertices.count, strips, group);
      assert groups[0..] == groups;
      FoldSays(source, blocks.materials, vertices.count, visit, groups, 0, [], geometry.strips);
    }
  }

  lemma {:induction false} GeometrySaysRead(source: seq<byte>, blocks: ObjectBlocks)
    requires blocks.In(source)
    ensures ReadGeometry(source, blocks).Ok? <==> exists geometry :: GeometrySays(source, blocks, geometry)
    ensures ReadGeometry(source, blocks).Ok? ==> GeometrySays(source, blocks, ReadGeometry(source, blocks).value)
  {
    hide ReadGeometry, GeometrySays;
    if ReadGeometry(source, blocks).Ok? {
      GeometryIsSaid(source, blocks, ReadGeometry(source, blocks).value);
    }
    forall geometry | GeometrySays(source, blocks, geometry) ensures ReadGeometry(source, blocks).Ok? {
      GeometryIsSaid(source, blocks, geometry);
    }
  }

  /** Every geometry that is read can be drawn: the facts the compiler relies on hold for all of it. */
  method GeometryOf(source: seq<byte>, blocks: ObjectBlocks) returns (r: Result<Geometry, Error>)
    requires blocks.In(source)
    ensures r == ReadGeometry(source, blocks)
    ensures r.Ok? ==> Drawable(source, r.value)
    ensures r.Ok? <==> exists geometry :: GeometrySays(source, blocks, geometry)
    ensures r.Ok? ==> GeometrySays(source, blocks, r.value)
  {
    hide StripsOk, ReadGroup, WordAt, GeometrySays;
    GeometrySaysRead(source, blocks);
    if blocks.positions.None? {
      return Err(NoVertexBlock);
    }
    var vertices := blocks.positions.value;
    if vertices.count > (vertices.end - vertices.start - HEADER) / 12 {
      return Err(TruncatedVertices);
    }
    if blocks.face.None? {
      return Err(NoFaceBlock);
    }
    var face := blocks.face.value;
    ghost var visit := (strips, group) => ReadGroup(source, blocks.materials, vertices.count, strips, group);
    if face.count > (face.end - face.start - HEADER) / HEADER {
      return Err(ChildCountExceedsBlock);
    }
    var at := face.start + HEADER;
    var result: Result<seq<SourceStrip>, Error> := Ok([]);
    StripsAreOk(source, [], vertices.count);
    for i := 0 to face.count
      invariant face.start + HEADER <= at <= face.end
      invariant Visited(Children(source, face), [], visit)
             == Continue(result, ChildrenFrom(source, at, face.end, face.count - i), visit)
      invariant result.Ok? ==> StripsOk(source, result.value, vertices.count)
    {
      var group := ReadBlock(source, at, face.end);
      if group.Err? {
        return Err(group.error);
      }
      at := group.value.end;
      if result.Ok? {
        result := AddGroup(source, blocks.materials, vertices.count, result.value, group.value);
      }
    }
    if result.Err? {
      return Err(result.error);
    }
    if result.value == [] || vertices.count == 0 {
      return Err(NothingToDraw);
    }
    StripsAreOk(source, result.value, vertices.count);
    r := Ok(Geometry(vertices.count, result.value));
  }

  // ---------- writing ----------

  function EncodedWords(strips: seq<SourceStrip>, flags: u32): nat {
    if strips == [] then 0 else S.DescriptorStride(flags) + strips[0].count + EncodedWords(strips[1..], flags)
  }

  lemma {:induction false} EncodedWordsSnoc(strips: seq<SourceStrip>, strip: SourceStrip, flags: u32)
    ensures EncodedWords(strips + [strip], flags)
            == EncodedWords(strips, flags) + S.DescriptorStride(flags) + strip.count
  {
    if strips == [] {
      assert [] + [strip] == [strip];
    } else {
      assert (strips + [strip])[1..] == strips[1..] + [strip];
      EncodedWordsSnoc(strips[1..], strip, flags);
    }
  }

  lemma {:induction false} EncodedWordsGrow(strips: seq<SourceStrip>, n: nat, flags: u32)
    requires n <= |strips|
    ensures EncodedWords(strips[..n], flags) <= EncodedWords(strips, flags)
  {
    if n > 0 {
      EncodedWordsGrow(strips[1..], n - 1, flags);
      assert strips[..n][1..] == strips[1..][..n - 1];
    }
  }

  lemma {:induction false} EncodedWordsExact(source: seq<byte>, strips: seq<SourceStrip>, flags: u32)
    requires AllIn(source, strips)
    ensures |S.Encode(DecodedAll(source, strips), flags)| == EncodedWords(strips, flags)
  {
    if strips != [] {
      EncodedWordsExact(source, strips[1..], flags);
      assert DecodedAll(source, strips)[1..] == DecodedAll(source, strips[1..]);
    }
  }

  /** The size in bytes of exactly the stream that is written, or a refusal it cannot be addressed. */
  method EncodedSize(source: seq<byte>, strips: seq<SourceStrip>, flags: u32) returns (r: Result<u32, S.Error>)
    requires AllIn(source, strips)
    ensures r.Ok? <==> 4 * |S.Encode(DecodedAll(source, strips), flags)| <= I32_MAX
    ensures r.Ok? ==> r.value == 4 * |S.Encode(DecodedAll(source, strips), flags)|
    ensures r.Err? ==>
              r.error
              == if 4 * |S.Encode(DecodedAll(source, strips), flags)| > USIZE_MAX then S.Overflow else S.TooLarge
  {
    EncodedWordsExact(source, strips, flags);
    var extra := S.DescriptorStride(flags);
    var length := 0;
    for i := 0 to |strips|
      invariant length == EncodedWords(strips[..i], flags)
    {
      EncodePrefix(source, strips, i, flags);
      if length + extra > USIZE_MAX || length + extra + strips[i].count > USIZE_MAX {
        return Err(S.Overflow);
      }
      length := length + extra + strips[i].count;
    }
    assert strips[..|strips|] == strips;
    r := S.ByteSize(length, 4);
  }

  lemma {:induction false} EncodeSnoc(strips: seq<S.Strip>, strip: S.Strip, flags: u32)
    ensures S.Encode(strips + [strip], flags) == S.Encode(strips, flags) + S.EncodeStrip(strip, flags)
  {
    if strips == [] {
      assert [] + [strip] == [strip];
      assert S.Encode([strip], flags) == S.EncodeStrip(strip, flags) + S.Encode([], flags);
    } else {
      assert (strips + [strip])[1..] == strips[1..] + [strip];
      EncodeSnoc(strips[1..], strip, flags);
      Associative(S.EncodeStrip(strips[0], flags), S.Encode(strips[1..], flags), S.EncodeStrip(strip, flags));
    }
  }

  /** The header words of one strip. */
  method EncodeHeaderInto(strip: S.Strip, flags: u32, stream: array<u32>, at: nat)
    requires at + S.DescriptorStride(flags) <= stream.Length
    modifies stream
    ensures forall j | 0 <= j < at :: stream[j] == old(stream[j])
    ensures stream[at] == S.Header(strip)
    ensures forall j | 0 <= j < S.DescriptorStride(flags) - 1 ::
              stream[at + 1 + j] == S.SelectorWords(strip.Key(), flags)[j]
  {
    stream[at] := |strip.indices| + if strip.reversed then 0x8000_0000 else 0;
    var slot := at + 1;
    if S.HasMaterial(flags) {
      stream[slot] := strip.material;
      slot := slot + 1;
    }
    if S.HasVariant(flags) {
      stream[slot] := strip.variant;
    }
  }

  /** The indices of one strip, word by word. */
  method EncodeIndicesInto(source: seq<byte>, strip: SourceStrip, stream: array<u32>, at: nat)
    requires strip.In(source) && at + strip.count <= stream.Length
    modifies stream
    ensures forall j | 0 <= j < at :: stream[j] == old(stream[j])
    ensures forall j | 0 <= j < strip.count :: stream[at + j] == Indices(source, strip)[j]
  {
    for k := 0 to strip.count
      invariant forall j | 0 <= j < at :: stream[j] == old(stream[j])
      invariant forall j | 0 <= j < k :: stream[at + j] == Indices(source, strip)[j]
    {
      stream[at + k] := WordAt(source, strip.start + 4 * k);
    }
  }

  /** Writes one strip and leaves what is before it alone. */
  method EncodeStripInto(source: seq<byte>, strip: SourceStrip, flags: u32, stream: array<u32>, at: nat)
    requires strip.In(source) && at + S.DescriptorStride(flags) + strip.count <= stream.Length
    modifies stream
    ensures stream[..at] == old(stream[..at])
    ensures stream[at..at + S.DescriptorStride(flags) + strip.count] == S.EncodeStrip(Decoded(source, strip), flags)
  {
    EncodeHeaderInto(Decoded(source, strip), flags, stream, at);
    EncodeIndicesInto(source, strip, stream, at + S.DescriptorStride(flags));
    assert forall j | 0 <= j < at :: stream[..at][j] == old(stream[..at])[j];
    EncodedAt(source, strip, flags, stream[at..at + S.DescriptorStride(flags) + strip.count]);
  }

  lemma {:induction false} EncodedAt(source: seq<byte>, strip: SourceStrip, flags: u32, words: seq<u32>)
    requires strip.In(source) && |words| == S.DescriptorStride(flags) + strip.count
    requires words[0] == S.Header(Decoded(source, strip))
    requires forall j | 0 <= j < S.DescriptorStride(flags) - 1 ::
               words[1 + j] == S.SelectorWords(Decoded(source, strip).Key(), flags)[j]
    requires forall j | 0 <= j < strip.count :: words[S.DescriptorStride(flags) + j] == Indices(source, strip)[j]
    ensures words == S.EncodeStrip(Decoded(source, strip), flags)
  {
    var stride, decoded := S.DescriptorStride(flags), Decoded(source, strip);
    var selectors := S.SelectorWords(decoded.Key(), flags);
    assert words[1..stride] == selectors;
    assert words[stride..] == decoded.indices;
    assert words == [words[0]] + words[1..stride] + words[stride..];
  }

  /** Fills the whole destination sized by `EncodedSize` with the printed strips. */
  method EncodeInto(source: seq<byte>, strips: seq<SourceStrip>, flags: u32, stream: array<u32>)
    requires AllIn(source, strips)
    requires stream.Length == |S.Encode(DecodedAll(source, strips), flags)|
    modifies stream
    ensures stream[..] == S.Encode(DecodedAll(source, strips), flags)
  {
    hide S.Encode, S.EncodeStrip, EncodedWords, DecodedAll, AllIn;
    EncodedWordsExact(source, strips, flags);
    EncodedStart(source, strips, flags);
    ghost var decoded := DecodedAll(source, strips);
    var at: nat := 0;
    for i := 0 to |strips|
      invariant at == EncodedWords(strips[..i], flags) && at <= stream.Length
      invariant stream[..at] == S.Encode(decoded[..i], flags)
    {
      EncodePrefix(source, strips, i, flags);
      ghost var written := stream[..at];
      var end := at + S.DescriptorStride(flags) + strips[i].count;
      InSource(source, strips, i);
      EncodeStripInto(source, strips[i], flags, stream, at);
      assert stream[..at] == written;
      assert stream[..end] == stream[..at] + stream[at..end];
      at := end;
    }
    assert strips[..|strips|] == strips && decoded[..|strips|] == decoded && stream[..at] == stream[..];
  }

  lemma {:induction false} InSource(source: seq<byte>, strips: seq<SourceStrip>, i: nat)
    requires AllIn(source, strips) && i < |strips|
    ensures strips[i].In(source)
  {
  }

  lemma {:induction false} EncodedStart(source: seq<byte>, strips: seq<SourceStrip>, flags: u32)
    requires AllIn(source, strips)
    ensures EncodedWords(strips[..0], flags) == 0 && S.Encode(DecodedAll(source, strips)[..0], flags) == []
  {
  }

  /** One more strip: how the output grows. */
  lemma {:induction false} EncodePrefix(source: seq<byte>, strips: seq<SourceStrip>, i: nat, flags: u32)
    requires AllIn(source, strips) && i < |strips|
    ensures EncodedWords(strips[..i + 1], flags)
            == EncodedWords(strips[..i], flags) + S.DescriptorStride(flags) + strips[i].count
    ensures EncodedWords(strips[..i + 1], flags) <= EncodedWords(strips, flags)
    ensures S.Encode(DecodedAll(source, strips)[..i + 1], flags)
            == S.Encode(DecodedAll(source, strips)[..i], flags) + S.EncodeStrip(Decoded(source, strips[i]), flags)
  {
    var decoded := DecodedAll(source, strips);
    assert strips[..i + 1] == strips[..i] + [strips[i]];
    EncodedWordsSnoc(strips[..i], strips[i], flags);
    EncodedWordsGrow(strips, i + 1, flags);
    assert decoded[..i + 1] == decoded[..i] + [Decoded(source, strips[i])];
    EncodeSnoc(decoded[..i], Decoded(source, strips[i]), flags);
  }

  // ---------- end to end ----------

  /** Vertex data that belongs to the geometry. */
  ghost predicate Matching(geometry: Geometry, vertices: M.Vertices) {
    && vertices.count == geometry.vertexCount
    && vertices.byteLength >= vertices.count * M.VertexStride(vertices.format)
  }

  lemma {:induction false} IndicesPass(indices: seq<u32>, from: nat, vertices: M.Vertices, skinned: bool)
    requires from <= |indices| && forall k | 0 <= k < |indices| :: indices[k] < vertices.count
    ensures var checked := M.CheckVertices(indices, from, vertices, skinned);
            checked.Err? ==> checked.error == S.NonFinitePosition || (skinned && checked.error == S.BoneOutOfRange)
    decreases |indices| - from
  {
    if from < |indices| {
      IndicesPass(indices, from + 1, vertices, skinned);
    }
  }

  /** Whatever the parser recovers passes every check but those on positions and bones. */
  lemma {:induction false} RecoveredPass(done: seq<S.Strip>, stream: seq<u32>, cursor: nat, count: nat, flags: u32,
                                         vertices: M.Vertices)
    requires S.ReadStrips(stream, cursor, count, flags).Ok?
    requires forall s, k | s in S.ReadStrips(stream, cursor, count, flags).value && 0 <= k < |s.indices| ::
               s.indices[k] < vertices.count
    ensures var checked := M.CheckStrips(done, stream, cursor, count, flags, vertices);
            if checked.Ok? then checked.value == done + S.ReadStrips(stream, cursor, count, flags).value
            else
              || checked.error == S.NonFinitePosition
              || (M.Skinned(vertices, flags) && checked.error == S.BoneOutOfRange)
    decreases count
  {
    if count == 0 {
      assert done + [] == done;
    } else {
      var strip := S.ReadStrip(stream, cursor, flags).value;
      var next := cursor + S.StripWords(strip, flags);
      var strips := S.ReadStrips(stream, next, count - 1, flags).value;
      assert ([strip] + strips)[0] == strip;
      assert forall s | s in strips :: s in [strip] + strips;
      IndicesPass(strip.indices, 0, vertices, M.Skinned(vertices, flags));
      RecoveredPass(done + [strip], stream, next, count - 1, flags, vertices);
      Associative(done, [strip], strips);
    }
  }

  /**
   End to end: the stream printed from a drawable geometry, for any flags and matching vertices,
   is refused only for its size, a position that is not finite or a bone outside the palette;
   otherwise the compiler sees exactly the source strips, with the selectors the flags let through.
   */
  lemma {:induction false} PrintedGeometryCompiles(source: seq<byte>, geometry: Geometry, flags: u32,
                                                   vertices: M.Vertices)
    requires Drawable(source, geometry) && Matching(geometry, vertices)
    ensures var strips := DecodedAll(source, geometry.strips);
            var checked := M.Check(S.Encode(strips, flags), |strips|, flags, vertices);
            if checked.Ok? then checked.value == S.SelectAll(strips, flags)
            else
              || checked.error == S.Overflow || checked.error == S.TooLarge || checked.error == S.NonFinitePosition
              || (M.Skinned(vertices, flags) && checked.error == S.BoneOutOfRange)
  {
    hide S.ReadStrips, S.ReadStrip, M.CheckStrips, M.CheckSizes, S.Encode;
    var strips := DecodedAll(source, geometry.strips);
    var stream := S.Encode(strips, flags);
    S.ReadEncoded(strips, flags);
    forall s, k | s in S.SelectAll(strips, flags) && 0 <= k < |s.indices|
      ensures s.indices[k] < vertices.count
    {
      var i :| 0 <= i < |strips| && S.SelectAll(strips, flags)[i] == s;
      assert StripOk(source, geometry.strips[i], geometry.vertexCount);
    }
    RecoveredPass([], stream, 0, |strips|, flags, vertices);
    assert [] + S.SelectAll(strips, flags) == S.SelectAll(strips, flags);
    EnoughWords(strips, flags);
    SizesRefuse(|stream|, |strips|, flags, vertices);
  }

  lemma {:induction false} SizesRefuse(length: nat, count: nat, flags: u32, vertices: M.Vertices)
    requires vertices.byteLength >= vertices.count * M.VertexStride(vertices.format)
    requires 0 < count <= length / (S.DescriptorStride(flags) + 3)
    ensures var checked := M.CheckSizes(length, count, flags, vertices);
            checked.Err? ==> checked.error == S.Overflow || checked.error == S.TooLarge
  {
  }

  lemma {:induction false} EnoughWords(strips: seq<S.Strip>, flags: u32)
    ensures |strips| <= |S.Encode(strips, flags)| / (S.DescriptorStride(flags) + 3)
  {
    var least := S.DescriptorStride(flags) + 3;
    LeastWords(strips, flags);
    assert |strips| == least * |strips| / least;
  }

  lemma {:induction false} LeastWords(strips: seq<S.Strip>, flags: u32)
    ensures |S.Encode(strips, flags)| >= (S.DescriptorStride(flags) + 3) * |strips|
  {
    if strips != [] {
      LeastWords(strips[1..], flags);
      M.OneMore(S.DescriptorStride(flags) + 3, |strips| - 1);
    }
  }

  /** The whole path, drawn: parsed geometry in, the same tagged triangles out. */
  method DrawObject(source: seq<byte>, blocks: ObjectBlocks, flags: u32, vertices: M.Vertices)
    returns (r: Result<M.Mesh, S.Error>)
    requires blocks.In(source) && ReadGeometry(source, blocks).Ok?
    requires Matching(ReadGeometry(source, blocks).value, vertices)
    requires |ReadGeometry(source, blocks).value.strips| < 0x1_0000_0000
    ensures Drawable(source, ReadGeometry(source, blocks).value)
    ensures GeometrySays(source, blocks, ReadGeometry(source, blocks).value)
    ensures r.Ok? ==>
              var strips := DecodedAll(source, ReadGeometry(source, blocks).value.strips);
              B.Draw(r.value.descriptors, r.value.indices, flags) == B.Tagged(S.SelectAll(strips, flags))
    ensures r.Err? ==>
              || r.error == S.Overflow || r.error == S.TooLarge || r.error == S.NonFinitePosition
              || (M.Skinned(vertices, flags) && r.error == S.BoneOutOfRange)
  {
    hide GeometrySays;
    var geometry := GeometryOf(source, blocks);
    var strips := geometry.value.strips;
    PrintedGeometryCompiles(source, geometry.value, flags, vertices);
    var size := EncodedSize(source, strips, flags);
    if size.Err? {
      return Err(size.error);
    }
    var stream := new u32[size.value / 4];
    EncodeInto(source, strips, flags, stream);
    r := M.Compile(stream[..], |strips|, flags, vertices);
  }
}
