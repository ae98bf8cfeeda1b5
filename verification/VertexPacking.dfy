/**
 Packing FMOD vertex attributes into the native source layout (geometry/src/vertex.rs). The two
 float conversions are parameters: a colour channel becomes a word and a weight becomes a byte.
 */
module VertexPacking {
  import opened Wrappers
  import opened Words
  import opened WordBits
  import S = StripStream
  import M = MeshCompiler

  datatype Error =
    | UnsupportedLayout
    | UvsRequired
    | Size(error: S.Error)
    | MissingAttribute
    | TruncatedAttribute
    | TruncatedWeightCount
    | TooManyInfluences
    | TruncatedWeights

  datatype Conversions = Conversions(color: u32 -> u32, weight: u32 -> byte)

  type Bytes = seq<byte>

  datatype Vertices = Vertices(format: u32, byteSize: u32, positions: Bytes, normals: Bytes, colors: Bytes,
                               uvs: Option<Bytes>, weights: Option<Bytes>, attribute: Option<Bytes>) {
    function Count(): nat {
      |positions| / 12
    }

    /** Words that one vertex takes. */
    function Stride(): nat {
      if weights.Some? then 15 else if uvs.Some? then 9 else 7
    }

    /** Where a vertex's words start. */
    function Base(i: nat): nat {
      if weights.Some? then 15 * i else if uvs.Some? then 9 * i else 7 * i
    }

    /** What every successful `New` establishes. */
    ghost predicate Valid() {
      var count := Count();
      && |positions| == 12 * count && |normals| == 12 * count && |colors| == 16 * count
      && (uvs.Some? ==> |uvs.value| == 8 * count)
      && (attribute.Some? ==> |attribute.value| == 16 * count && weights.Some?)
      && (weights.Some? ==> uvs.Some?)
      && format == (if weights.Some? then 0x4135 else if uvs.Some? then 0x35 else 0x25)
      && byteSize == count * (if weights.Some? then 60 else 36)
    }
  }

  function Attribute(bytes: Option<Bytes>, count: nat, stride: nat): (r: Result<Bytes, Error>)
    ensures r.Ok? ==> |r.value| == count * stride
  {
    if bytes.None? then Err(MissingAttribute)
    else if |bytes.value| < count * stride then Err(TruncatedAttribute)
    else Ok(bytes.value[..count * stride])
  }

  function OptionalAttribute(bytes: Option<Bytes>, count: nat, stride: nat): (r: Result<Option<Bytes>, Error>)
    ensures r.Ok? ==> (r.value.Some? <==> bytes.Some?) && (r.value.Some? ==> |r.value.value| == count * stride)
  {
    if bytes.None? then Ok(None)
    else
      var part :- Attribute(bytes, count, stride);
      Ok(Some(part))
  }

  /** Enough bytes for every vertex. */
  predicate Enough(bytes: Option<Bytes>, count: nat, stride: nat) {
    bytes.Some? && |bytes.value| >= count * stride
  }

  predicate Short(bytes: Option<Bytes>, count: nat, stride: nat) {
    bytes.Some? && |bytes.value| < count * stride
  }

  function New(count: u32, positions: Bytes, normals: Option<Bytes>, colors: Option<Bytes>, uvs: Option<Bytes>,
               weights: Option<Bytes>, attribute: Option<Bytes>): (r: Result<Vertices, Error>)
    ensures r.Ok? ==> r.value.Valid() && r.value.Count() == count && r.value.weights == weights
    ensures r.Ok? <==>
              && (attribute.Some? ==> weights.Some? && Enough(attribute, count, 16))
              && (weights.Some? ==> uvs.Some?)
              && count * (if weights.Some? then 60 else 36) <= I32_MAX
              && |positions| >= count * 12 && Enough(normals, count, 12) && Enough(colors, count, 16)
              && (uvs.Some? ==> Enough(uvs, count, 8))
    ensures r.Ok? ==> && r.value.positions == positions[..count * 12]
                      && r.value.normals == normals.value[..count * 12] && r.value.colors == colors.value[..count * 16]
                      && (r.value.uvs.Some? <==> uvs.Some?)
                      && (uvs.Some? ==> r.value.uvs.value == uvs.value[..count * 8])
                      && (r.value.attribute.Some? <==> attribute.Some?)
                      && (attribute.Some? ==> r.value.attribute.value == attribute.value[..count * 16])
    ensures r == Err(UnsupportedLayout) <==> weights.None? && attribute.Some?
    ensures r == Err(UvsRequired) <==> weights.Some? && uvs.None?
    ensures r.Err? && r.error.Size? <==> && (attribute.Some? ==> weights.Some?) && (weights.Some? ==> uvs.Some?)
                                         && count * (if weights.Some? then 60 else 36) > I32_MAX
    ensures r == Err(MissingAttribute) ==> normals.None? || colors.None?
    ensures r == Err(TruncatedAttribute) ==>
              || |positions| < count * 12 || Short(normals, count, 12) || Short(colors, count, 16)
              || Short(uvs, count, 8) || Short(attribute, count, 16)
  {
    if weights.None? && attribute.Some? then Err(UnsupportedLayout)
    else if weights.Some? && uvs.None? then Err(UvsRequired)
    else
      var size := S.ByteSize(count, if weights.Some? then 60 else 36);
      if size.Err? then Err(Size(size.error))
      else
        var p :- Attribute(Some(positions), count, 12);
        var n :- Attribute(normals, count, 12);
        var c :- Attribute(colors, count, 16);
        var u :- OptionalAttribute(uvs, count, 8);
        var a :- OptionalAttribute(attribute, count, 16);
        Ok(Vertices(if weights.Some? then 0x4135 else if uvs.Some? then 0x35 else 0x25,
                    size.value, p, n, c, u, weights, a))
  }

  /** The compiler reads vertices of the announced format at the distance at which they are packed. */
  lemma {:induction false} LayoutMatchesFormat(vertices: Vertices)
    requires vertices.Valid()
    ensures M.VertexStride(vertices.format) == 4 * vertices.Stride()
    ensures vertices.Count() * M.VertexStride(vertices.format) <= vertices.byteSize
    ensures vertices.uvs.Some? ==> vertices.Count() * M.VertexStride(vertices.format) == vertices.byteSize
  {
  }

  // ---------- influences ----------

  /** Four bones with their shares; unused places hold bone 0 and share 0. */
  datatype Influences = Influences(bones: seq<byte>, amounts: seq<int>) {
    predicate Four() {
      |bones| == 4 && |amounts| == 4
    }
  }

  function Sum(amounts: seq<int>): int
    requires |amounts| == 4
  {
    amounts[0] + amounts[1] + amounts[2] + amounts[3]
  }

  /** The influences of one vertex as they are stored. */
  function Stored(weights: Bytes, at: nat, count: nat, conversions: Conversions): (stored: Influences)
    requires count <= 4 && at + 8 * count <= |weights|
    ensures stored.Four()
    ensures forall k | 0 <= k < 4 :: 0 <= stored.amounts[k] <= 255
  {
    Influences(seq(4, k requires 0 <= k < 4 => if k < count then WordAt(weights, at + 8 * k) % 0x100 else 0),
               seq(4, k requires 0 <= k < 4 =>
                        if k < count then conversions.weight(WordAt(weights, at + 8 * k + 4)) else 0))
  }

  /** The last influence with a share, or the first. */
  function LastShare(amounts: seq<int>, end: nat): (last: nat)
    requires end <= |amounts| == 4
    ensures last < 4 && forall k | last < k < end :: amounts[k] == 0
    ensures amounts[last] == 0 || last >= end ==> last == 0 && forall k | 0 <= k < end :: amounts[k] == 0
  {
    if end == 0 then 0 else if amounts[end - 1] != 0 then end - 1 else LastShare(amounts, end - 1)
  }

  /** The last share takes what is missing to 255, or gives up what is too much. */
  function Corrected(amounts: seq<int>): (corrected: seq<int>)
    requires |amounts| == 4
    ensures |corrected| == 4 && Sum(corrected) == 255
  {
    var last := LastShare(amounts, 4);
    amounts[last := amounts[last] + 255 - Sum(amounts)]
  }

  /** A place without a share takes over its successor's influence. */
  function Pulled(influences: Influences, i: nat): (pulled: Influences)
    requires influences.Four() && i < 3
    ensures pulled.Four()
  {
    if influences.amounts[i] != 0 then influences
    else
      Influences(influences.bones[i := influences.bones[i + 1]],
                 influences.amounts[i := influences.amounts[i + 1]][i + 1 := 0])
  }

  /** The single forward pass over the places from `i` up to `end`. */
  function Forward(influences: Influences, i: nat, end: nat): (forwarded: Influences)
    requires influences.Four() && end <= 3
    ensures forwarded.Four()
    decreases end - i
  {
    if i >= end then influences else Forward(Pulled(influences, i), i + 1, end)
  }

  function Passes(count: nat): nat {
    if count == 0 then 0 else count - 1
  }

  function Packed(weights: Bytes, at: nat, count: nat, conversions: Conversions): (packed: Influences)
    requires count <= 4 && at + 8 * count <= |weights|
    ensures packed.Four()
  {
    var stored := Stored(weights, at, count, conversions);
    Forward(Influences(stored.bones, Corrected(stored.amounts)), 0, Passes(count))
  }

  /** What one bone contributes. */
  function BoneTotal(influences: Influences, bone: byte): int
    requires influences.Four()
  {
    (if influences.bones[0] == bone then influences.amounts[0] else 0)
    + (if influences.bones[1] == bone then influences.amounts[1] else 0)
    + (if influences.bones[2] == bone then influences.amounts[2] else 0)
    + (if influences.bones[3] == bone then influences.amounts[3] else 0)
  }

  function Share(bone: byte, amount: int): seq<(byte, int)> {
    if amount == 0 then [] else [(bone, amount)]
  }

  /** The influences that have a share, in order. */
  function Shares(influences: Influences): seq<(byte, int)>
    requires influences.Four()
  {
    Share(influences.bones[0], influences.amounts[0]) + Share(influences.bones[1], influences.amounts[1])
    + Share(influences.bones[2], influences.amounts[2]) + Share(influences.bones[3], influences.amounts[3])
  }

  lemma {:induction false} PulledKeepsShares(influences: Influences, i: nat, bone: byte)
    requires influences.Four() && i < 3
    ensures Shares(Pulled(influences, i)) == Shares(influences)
    ensures BoneTotal(Pulled(influences, i), bone) == BoneTotal(influences, bone)
    ensures Sum(Pulled(influences, i).amounts) == Sum(influences.amounts)
  {
  }

  /** The forward pass loses and reorders no share: it only moves shares towards the front. */
  lemma {:induction false} ForwardKeepsShares(influences: Influences, i: nat, end: nat, bone: byte)
    requires influences.Four() && end <= 3
    ensures Shares(Forward(influences, i, end)) == Shares(influences)
    ensures BoneTotal(Forward(influences, i, end), bone) == BoneTotal(influences, bone)
    ensures Sum(Forward(influences, i, end).amounts) == Sum(influences.amounts)
    decreases end - i
  {
    hide Shares, BoneTotal, Sum, Pulled;
    if i < end {
      PulledKeepsShares(influences, i, bone);
      ForwardKeepsShares(Pulled(influences, i), i + 1, end, bone);
    }
  }

  /** What the influences beside the corrected one add up to. */
  function Others(amounts: seq<int>): int
    requires |amounts| == 4
  {
    Sum(amounts) - amounts[LastShare(amounts, 4)]
  }

  /** One place holds `odd`; the other places hold bytes. */
  ghost predicate OneOdd(amounts: seq<int>, odd: int) {
    && |amounts| == 4
    && exists p :: 0 <= p < 4 && amounts[p] == odd && forall k | 0 <= k < 4 && k != p :: 0 <= amounts[k] <= 255
  }

  lemma {:induction false} ForwardKeepsOdd(influences: Influences, i: nat, end: nat, odd: int)
    requires influences.Four() && end <= 3 && OneOdd(influences.amounts, odd)
    ensures OneOdd(Forward(influences, i, end).amounts, odd)
    decreases end - i
  {
    if i < end {
      var p :| 0 <= p < 4 && influences.amounts[p] == odd
               && forall k | 0 <= k < 4 && k != p :: 0 <= influences.amounts[k] <= 255;
      var pulled := Pulled(influences, i);
      if influences.amounts[i] == 0 {
        var q := if p == i then i + 1 else if p == i + 1 then i else p;
        assert pulled.amounts[q] == odd && forall k | 0 <= k < 4 && k != q :: 0 <= pulled.amounts[k] <= 255;
      }
      ForwardKeepsOdd(pulled, i + 1, end, odd);
    }
  }

  /** A two's complement word. */
  function AsWord(n: int): u32 {
    n % 0x1_0000_0000
  }

  function WeightWord(amounts: seq<int>): u32
    requires |amounts| == 4
  {
    Pack(AsWord(amounts[0]), AsWord(amounts[1]), AsWord(amounts[2]), AsWord(amounts[3]))
  }

  function ByteSum(word: u32): int {
    var high: int, upper: int := ByteOf(word, 0), ByteOf(word, 1);
    var lower: int, low: int := ByteOf(word, 2), ByteOf(word, 3);
    high + upper + lower + low
  }

  lemma {:induction false} WeightWordSum(amounts: seq<int>, odd: int)
    requires OneOdd(amounts, odd) && Sum(amounts) == 255 && odd <= 255
    ensures ByteSum(WeightWord(amounts)) == 255 <==> odd >= 0
  {
    hide Pack, ByteOf, FromBytes;
    var a, b, c, d := amounts[0], amounts[1], amounts[2], amounts[3];
    if odd >= 0 {
      assert 0 <= a <= 255 && 0 <= b <= 255 && 0 <= c <= 255 && 0 <= d <= 255;
      PackedSideBySide(a, b, c, d);
      WordOfBytes(a, b, c, d);
    } else {
      PackedAtLeast(AsWord(a), AsWord(b), AsWord(c), AsWord(d));
      assert [a, b, c, d] == amounts;
      LowBytes(a, b, c, d, odd);
    }
  }

  lemma {:induction false} LowBytes(a: int, b: int, c: int, d: int, odd: int)
    requires OneOdd([a, b, c, d], odd) && a + b + c + d == 255 && odd < 0
    ensures AsWord(a) % 0x100 + AsWord(b) % 0x100 + AsWord(c) % 0x100 + AsWord(d) % 0x100 > 255
  {
    var amounts := [a, b, c, d];
    var p :| 0 <= p < 4 && amounts[p] == odd && forall k | 0 <= k < 4 && k != p :: 0 <= amounts[k] <= 255;
    LowByte(odd);
    forall k | 0 <= k < 4 && k != p ensures AsWord(amounts[k]) % 0x100 == amounts[k] {
    }
    assert a == amounts[0] && b == amounts[1] && c == amounts[2] && d == amounts[3];
  }

  lemma {:induction false} LowByte(n: int)
    requires n < 0
    ensures AsWord(n) % 0x100 > n
  {
  }

  /**
   The packed weights of a vertex always come from shares that add up to 255; the four packed
   bytes add up to 255 exactly when the influences beside the corrected one do not exceed it.
   */
  lemma {:induction false} PackedWeightsAddUp(weights: Bytes, at: nat, count: nat, conversions: Conversions)
    requires count <= 4 && at + 8 * count <= |weights|
    ensures Sum(Packed(weights, at, count, conversions).amounts) == 255
    ensures ByteSum(WeightWord(Packed(weights, at, count, conversions).amounts)) == 255
            <==> Others(Stored(weights, at, count, conversions).amounts) <= 255
  {
    hide WeightWord, ByteSum, Forward;
    var stored := Stored(weights, at, count, conversions);
    var corrected := Influences(stored.bones, Corrected(stored.amounts));
    var odd := 255 - Others(stored.amounts);
    assert corrected.amounts[LastShare(stored.amounts, 4)] == odd;
    assert OneOdd(corrected.amounts, odd);
    ForwardKeepsShares(corrected, 0, Passes(count), 0);
    ForwardKeepsOdd(corrected, 0, Passes(count), odd);
    WeightWordSum(Packed(weights, at, count, conversions).amounts, odd);
  }

  /** The exception is real: three influences of full weight leave bytes that do not add up to 255. */
  lemma {:induction false} FullWeightsDoNotAddUp(weights: Bytes, conversions: Conversions)
    requires |weights| == 24
    requires forall k | 0 <= k < 3 :: conversions.weight(WordAt(weights, 8 * k + 4)) == 255
    ensures ByteSum(WeightWord(Packed(weights, 0, 3, conversions).amounts)) != 255
  {
    hide WordAt, Packed, WeightWord, ByteSum;
    var amounts := Stored(weights, 0, 3, conversions).amounts;
    assert amounts == [255, 255, 255, 0];
    assert LastShare(amounts, 4) == LastShare(amounts, 3) == 2;
    assert Others(amounts) == 510;
    PackedWeightsAddUp(weights, 0, 3, conversions);
  }

  /** The float 100.0, a full weight. */
  const FULL_WEIGHT: u32 := 0x42C8_0000

  /** Bones 0, 1 and 2, each of weight 100.0. */
  const THREE_FULL_WEIGHTS: Bytes :=
    [0, 0, 0, 0, 0, 0, 0xC8, 0x42, 1, 0, 0, 0, 0, 0, 0xC8, 0x42, 2, 0, 0, 0, 0, 0, 0xC8, 0x42]

  lemma {:induction false} ThreeFullWeightsDoNotAddUp(conversions: Conversions)
    requires conversions.weight(FULL_WEIGHT) == 255
    ensures Stored(THREE_FULL_WEIGHTS, 0, 3, conversions) == Influences([0, 1, 2, 0], [255, 255, 255, 0])
    ensures ByteSum(WeightWord(Packed(THREE_FULL_WEIGHTS, 0, 3, conversions).amounts)) != 255
  {
    hide Packed, WeightWord, ByteSum, WordAt;
    ThreeFullWords();
    FullWeightsDoNotAddUp(THREE_FULL_WEIGHTS, conversions);
    var stored := Stored(THREE_FULL_WEIGHTS, 0, 3, conversions);
    assert stored.bones == [0, 1, 2, 0] && stored.amounts == [255, 255, 255, 0];
  }

  lemma {:induction false} ThreeFullWords()
    ensures forall k | 0 <= k < 3 ::
              WordAt(THREE_FULL_WEIGHTS, 8 * k) == k && WordAt(THREE_FULL_WEIGHTS, 8 * k + 4) == FULL_WEIGHT
  {
    hide WordAt;
    forall k | 0 <= k < 3
      ensures WordAt(THREE_FULL_WEIGHTS, 8 * k) == k && WordAt(THREE_FULL_WEIGHTS, 8 * k + 4) == FULL_WEIGHT
    {
      FullWeight(k);
    }
  }

  lemma {:induction false} FullWeight(k: nat)
    requires k < 3
    ensures WordAt(THREE_FULL_WEIGHTS, 8 * k) == k && WordAt(THREE_FULL_WEIGHTS, 8 * k + 4) == FULL_WEIGHT
  {
    var bytes := THREE_FULL_WEIGHTS;
    assert bytes[8 * k] == k && bytes[8 * k + 1] == 0 && bytes[8 * k + 2] == 0 && bytes[8 * k + 3] == 0;
    assert bytes[8 * k + 4] == 0 && bytes[8 * k + 5] == 0 && bytes[8 * k + 6] == 0xC8 && bytes[8 * k + 7] == 0x42;
  }

  method ReadInfluences(weights: Bytes, at: nat, count: nat, conversions: Conversions)
    returns (stored: Influences, last: nat)
    requires count <= 4 && at + 8 * count <= |weights|
    ensures stored == Stored(weights, at, count, conversions) && last == LastShare(stored.amounts, 4)
  {
    hide WordAt;
    var bones: seq<byte>, amounts: seq<int> := [0, 0, 0, 0], [0, 0, 0, 0];
    last := 0;
    ghost var entries := Stored(weights, at, count, conversions);
    for influence := 0 to count
      invariant |bones| == |amounts| == 4
      invariant forall k | 0 <= k < 4 :: bones[k] == if k < influence then entries.bones[k] else 0
      invariant forall k | 0 <= k < 4 :: amounts[k] == if k < influence then entries.amounts[k] else 0
      invariant last < 4 && last == LastShare(amounts, influence)
    {
      ghost var before := amounts;
      bones := bones[influence := WordAt(weights, at + 8 * influence) % 0x100];
      amounts := amounts[influence := conversions.weight(WordAt(weights, at + 8 * influence + 4))];
      SameLastShare(before, amounts, influence);
      if amounts[influence] != 0 {
        last := influence;
      }
    }
    NoLaterShare(amounts, count);
    assert bones == entries.bones && amounts == entries.amounts;
    stored := Influences(bones, amounts);
  }

  method PackInfluences(weights: Bytes, at: nat, count: nat, conversions: Conversions) returns (packed: Influences)
    requires count <= 4 && at + 8 * count <= |weights|
    ensures packed == Packed(weights, at, count, conversions)
  {
    hide Stored, LastShare;
    var stored, last := ReadInfluences(weights, at, count, conversions);
    var amounts := stored.amounts[last := stored.amounts[last] + 255 - Sum(stored.amounts)];
    packed := Influences(stored.bones, amounts);
    ghost var corrected := packed;
    for influence := 0 to Passes(count)
      invariant packed.Four()
      invariant Forward(packed, influence, Passes(count)) == Forward(corrected, 0, Passes(count))
    {
      if packed.amounts[influence] == 0 {
        packed := Influences(packed.bones[influence := packed.bones[influence + 1]],
                             packed.amounts[influence := packed.amounts[influence + 1]][influence + 1 := 0]);
      }
    }
  }

  lemma {:induction false} SameLastShare(amounts: seq<int>, others: seq<int>, end: nat)
    requires |amounts| == |others| == 4 && end <= 4
    requires forall k | 0 <= k < end :: amounts[k] == others[k]
    ensures LastShare(amounts, end) == LastShare(others, end)
  {
    if end > 0 {
      SameLastShare(amounts, others, end - 1);
    }
  }

  lemma {:induction false} NoLaterShare(amounts: seq<int>, end: nat)
    requires |amounts| == 4 && end <= 4
    requires forall k | end <= k < 4 :: amounts[k] == 0
    ensures LastShare(amounts, 4) == LastShare(amounts, end)
    decreases 4 - end
  {
    if end < 4 {
      NoLaterShare(amounts, end + 1);
    }
  }

  // ---------- vertices ----------

  /**
   Alpha, red, green and blue, most significant first; what a channel has above its byte joins the
   bytes before it.
   */
  function ColorWord(vertices: Vertices, conversions: Conversions, i: nat): u32
    requires vertices.Valid() && i < vertices.Count()
  {
    var channel := (k: nat) requires k < 4 => conversions.color(WordAt(vertices.colors, i * 16 + k * 4));
    Pack(channel(3), channel(0), channel(1), channel(2))
  }

  /** The words of vertex `i` that its weights do not decide. */
  function PlainWord(vertices: Vertices, conversions: Conversions, i: nat, place: nat): u32
    requires vertices.Valid() && i < vertices.Count() && place < vertices.Stride() && place < 13
  {
    if place < 3 then WordAt(vertices.positions, i * 12 + place * 4)
    else if place < 6 then WordAt(vertices.normals, i * 12 + (place - 3) * 4)
    else if place == 6 then ColorWord(vertices, conversions, i)
    else if place < 9 then WordAt(vertices.uvs.value, i * 8 + (place - 7) * 4)
    else if vertices.attribute.None? then 0
    else WordAt(vertices.attribute.value, i * 16 + (place - 9) * 4)
  }

  /** The word that vertex `i` has at `place`, its weights being stored at `at`. */
  function VertexWord(vertices: Vertices, conversions: Conversions, i: nat, at: nat, place: nat): u32
    requires vertices.Valid() && i < vertices.Count() && place < vertices.Stride()
    requires vertices.weights.Some? ==> WeightsFit(vertices.weights.value, at)
  {
    if place < 13 then PlainWord(vertices, conversions, i, place)
    else
      var packed := Packed(vertices.weights.value, at + 4, WordAt(vertices.weights.value, at), conversions);
      if place == 13 then FromBytes(packed.bones[0], packed.bones[1], packed.bones[2], packed.bones[3])
      else WeightWord(packed.amounts)
  }

  /** A count of at most four influences, and the influences. */
  predicate WeightsFit(weights: Bytes, at: nat) {
    at + 4 <= |weights| && WordAt(weights, at) <= 4 && at + 4 + 8 * WordAt(weights, at) <= |weights|
  }

  function CheckWeights(weights: Bytes, at: nat): (r: Result<(), Error>)
    ensures r.Ok? <==> WeightsFit(weights, at)
  {
    if at + 4 > |weights| then Err(TruncatedWeightCount)
    else if WordAt(weights, at) > 4 then Err(TooManyInfluences)
    else if at + 4 + 8 * WordAt(weights, at) > |weights| then Err(TruncatedWeights)
    else Ok(())
  }

  /** Where each vertex's weights start, one after the other, or what is wrong with the first that do not fit. */
  function Cursors(vertices: Vertices, i: nat): (r: Result<seq<nat>, Error>)
    requires vertices.Valid() && vertices.weights.Some? && i <= vertices.Count()
    ensures r.Ok? ==> |r.value| == i + 1 && r.value[0] == 0
    ensures r.Ok? ==> forall k | 0 <= k < i ::
                        WeightsFit(vertices.weights.value, r.value[k])
                        && r.value[k + 1] == r.value[k] + 4 + 8 * WordAt(vertices.weights.value, r.value[k])
  {
    if i == 0 then Ok([0])
    else
      var before :- Cursors(vertices, i - 1);
      var at := before[i - 1];
      var _ :- CheckWeights(vertices.weights.value, at);
      Ok(before + [at + 4 + 8 * WordAt(vertices.weights.value, at)])
  }

  /** Why the vertices before `i` cannot be packed, if they cannot. */
  function Refusal(vertices: Vertices, i: nat): Option<Error>
    requires vertices.Valid() && i <= vertices.Count()
  {
    if vertices.weights.None? then None
    else match Cursors(vertices, i) case Ok(_) => None case Err(error) => Some(error)
  }

  function CursorOf(vertices: Vertices, i: nat): nat
    requires vertices.Valid() && i <= vertices.Count() && Refusal(vertices, i).None?
  {
    if vertices.weights.None? then 0 else Cursors(vertices, i).value[i]
  }

  lemma {:induction false} RefusedForGood(vertices: Vertices, i: nat, j: nat)
    requires vertices.Valid() && i <= j <= vertices.Count() && Refusal(vertices, i).Some?
    ensures Refusal(vertices, j) == Refusal(vertices, i)
  {
    if i < j {
      RefusedForGood(vertices, i, j - 1);
    }
  }

  lemma {:induction false} NextCursor(vertices: Vertices, i: nat)
    requires vertices.Valid() && i < vertices.Count() && Refusal(vertices, i).None?
    ensures vertices.weights.Some? ==>
              match CheckWeights(vertices.weights.value, CursorOf(vertices, i))
              case Err(error) => Refusal(vertices, i + 1) == Some(error)
              case Ok(_) =>
                Refusal(vertices, i + 1).None?
                && CursorOf(vertices, i + 1) == CursorOf(vertices, i) + 4
                   + 8 * WordAt(vertices.weights.value, CursorOf(vertices, i))
    ensures vertices.weights.None? ==>
              Refusal(vertices, i + 1).None? && CursorOf(vertices, i + 1) == CursorOf(vertices, i)
  {
  }

  lemma {:induction false} FitsAt(vertices: Vertices, i: nat)
    requires vertices.Valid() && i < vertices.Count() && Refusal(vertices, i + 1).None?
    ensures Refusal(vertices, i).None?
    ensures vertices.weights.Some? ==> WeightsFit(vertices.weights.value, CursorOf(vertices, i))
  {
  }

  /** The vertex's words stand where the vertex belongs. */
  ghost predicate Holds(vertices: Vertices, conversions: Conversions, words: seq<u32>, i: nat)
    requires vertices.Valid() && i < vertices.Count()
  {
    && Refusal(vertices, i + 1).None?
    && |words| >= vertices.Base(i + 1)
    && (FitsAt(vertices, i);
        forall place | 0 <= place < vertices.Stride() ::
          words[vertices.Base(i) + place] == VertexWord(vertices, conversions, i, CursorOf(vertices, i), place))
  }

  /** A successful encoding: every vertex in its place, and zeros behind them. */
  ghost predicate Encoded(vertices: Vertices, conversions: Conversions, words: seq<u32>)
    requires vertices.Valid()
  {
    && 4 * |words| == vertices.byteSize
    && Refusal(vertices, vertices.Count()).None?
    && (forall i | 0 <= i < vertices.Count() :: Holds(vertices, conversions, words, i))
    && forall k | vertices.Base(vertices.Count()) <= k < |words| :: words[k] == 0
  }

  lemma {:induction false} PlaceOf(vertices: Vertices, k: nat)
    ensures var i, place := k / vertices.Stride(), k % vertices.Stride();
            && k == vertices.Base(i) + place && place < vertices.Stride()
            && (k < vertices.Base(vertices.Count()) ==> i < vertices.Count())
  {
  }

  /** Every word of the destination is decided by the attributes, whatever it held before. */
  lemma {:induction false} EncodingIsDetermined(vertices: Vertices, conversions: Conversions, words: seq<u32>,
                                                others: seq<u32>)
    requires vertices.Valid() && Encoded(vertices, conversions, words) && Encoded(vertices, conversions, others)
    ensures words == others
  {
    hide VertexWord, Holds, Refusal, CursorOf;
    forall k | 0 <= k < |words| && k < vertices.Base(vertices.Count()) ensures words[k] == others[k] {
      var i, place := k / vertices.Stride(), k % vertices.Stride();
      PlaceOf(vertices, k);
      HeldWord(vertices, conversions, words, i, place);
      HeldWord(vertices, conversions, others, i, place);
    }
  }

  lemma {:induction false} HeldWord(vertices: Vertices, conversions: Conversions, words: seq<u32>, i: nat, place: nat)
    requires vertices.Valid() && i < vertices.Count() && Holds(vertices, conversions, words, i)
             && place < vertices.Stride()
    ensures vertices.weights.Some? ==>
              Refusal(vertices, i).None? && WeightsFit(vertices.weights.value, CursorOf(vertices, i))
    ensures Refusal(vertices, i).None? && vertices.Base(i) + place < |words|
    ensures words[vertices.Base(i) + place] == VertexWord(vertices, conversions, i, CursorOf(vertices, i), place)
  {
    hide VertexWord, Refusal, CursorOf;
    FitsAt(vertices, i);
  }

  method EncodeInto(vertices: Vertices, conversions: Conversions, output: array<u32>) returns (r: Result<(), Error>)
    requires vertices.Valid() && 4 * output.Length == vertices.byteSize
    modifies output
    ensures r.Ok? ==> Encoded(vertices, conversions, output[..])
    ensures r.Err? ==> Refusal(vertices, vertices.Count()) == Some(r.error)
  {
    hide Refusal, CursorOf, PlainWord, Packed, WeightWord, FromBytes, Holds, CheckWeights;
    var count := vertices.Count();
    assert vertices.Base(count) <= output.Length;
    for k := vertices.Base(count) to output.Length
      invariant forall j | vertices.Base(count) <= j < k :: output[j] == 0
    {
      output[k] := 0;
    }
    NoRefusal(vertices);
    var at := 0;
    for i := 0 to count
      invariant Refusal(vertices, i).None? && at == CursorOf(vertices, i)
      invariant forall j | 0 <= j < i :: Holds(vertices, conversions, output[..], j)
      invariant forall j | vertices.Base(count) <= j < output.Length :: output[j] == 0
    {
      NextCursor(vertices, i);
      ghost var before := output[..];
      WritePlain(vertices, conversions, output, i);
      if vertices.weights.Some? {
        var fits := CheckWeights(vertices.weights.value, at);
        if fits.Err? {
          RefusedForGood(vertices, i + 1, count);
          return Err(fits.error);
        }
        WriteWeights(vertices, conversions, output, i, at);
        at := at + 4 + 8 * WordAt(vertices.weights.value, at);
      }
      VertexIsWritten(vertices, conversions, before, output[..], i);
    }
    r := Ok(());
  }

  lemma {:induction false} NoRefusal(vertices: Vertices)
    requires vertices.Valid()
    ensures Refusal(vertices, 0).None? && CursorOf(vertices, 0) == 0
  {
  }

  /** Writing one vertex completes it and disturbs no other. */
  lemma {:induction false} VertexIsWritten(vertices: Vertices, conversions: Conversions, before: seq<u32>,
                                           after: seq<u32>, i: nat)
    requires vertices.Valid() && i < vertices.Count() && Refusal(vertices, i + 1).None?
    requires |before| == |after| && vertices.Base(i + 1) <= |after|
    requires Refusal(vertices, i).None?
             && (vertices.weights.Some? ==> WeightsFit(vertices.weights.value, CursorOf(vertices, i)))
    requires forall place | 0 <= place < vertices.Stride() ::
               after[vertices.Base(i) + place] == VertexWord(vertices, conversions, i, CursorOf(vertices, i), place)
    requires forall k | 0 <= k < vertices.Base(i) :: after[k] == before[k]
    requires forall j | 0 <= j < i :: Holds(vertices, conversions, before, j)
    ensures forall j | 0 <= j <= i :: Holds(vertices, conversions, after, j)
  {
    hide VertexWord, Refusal, CursorOf;
    FitsAt(vertices, i);
    forall j | 0 <= j < i ensures Holds(vertices, conversions, after, j) {
      assert Holds(vertices, conversions, before, j);
    }
  }

  method WritePlain(vertices: Vertices, conversions: Conversions, output: array<u32>, i: nat)
    requires vertices.Valid() && i < vertices.Count() && vertices.Base(i + 1) <= output.Length
    modifies output
    ensures forall place | 0 <= place < vertices.Stride() && place < 13 ::
              output[vertices.Base(i) + place] == PlainWord(vertices, conversions, i, place)
    ensures forall k | 0 <= k < output.Length && !(vertices.Base(i) <= k < vertices.Base(i + 1)) ::
              output[k] == old(output[k])
  {
    hide ColorWord, WordAt;
    assert vertices.Base(i + 1) == vertices.Base(i) + vertices.Stride();
    var base := vertices.Base(i);
    for axis := 0 to 3
      invariant forall place | 0 <= place < axis || 3 <= place < 3 + axis ::
                  output[base + place] == PlainWord(vertices, conversions, i, place)
      invariant forall k | 0 <= k < output.Length && !(base <= k < vertices.Base(i + 1)) :: output[k] == old(output[k])
    {
      output[base + axis] := WordAt(vertices.positions, i * 12 + axis * 4);
      output[base + 3 + axis] := WordAt(vertices.normals, i * 12 + axis * 4);
    }
    output[base + 6] := ColorWord(vertices, conversions, i);
    if vertices.uvs.Some? {
      output[base + 7] := WordAt(vertices.uvs.value, i * 8);
      output[base + 8] := WordAt(vertices.uvs.value, i * 8 + 4);
    }
    if vertices.weights.Some? {
      for axis := 0 to 4
        invariant forall place | 0 <= place < 9 + axis ::
                    output[base + place] == PlainWord(vertices, conversions, i, place)
        invariant forall k | 0 <= k < output.Length && !(base <= k < vertices.Base(i + 1)) ::
                    output[k] == old(output[k])
      {
        output[base + 9 + axis] :=
          if vertices.attribute.None? then 0 else WordAt(vertices.attribute.value, i * 16 + axis * 4);
      }
    }
  }

  method WriteWeights(vertices: Vertices, conversions: Conversions, output: array<u32>, i: nat, at: nat)
    requires vertices.Valid() && vertices.weights.Some? && i < vertices.Count() && vertices.Base(i + 1) <= output.Length
    requires WeightsFit(vertices.weights.value, at)
    modifies output
    ensures forall place | 13 <= place < 15 ::
              output[vertices.Base(i) + place] == VertexWord(vertices, conversions, i, at, place)
    ensures forall k | 0 <= k < output.Length && !(vertices.Base(i) + 13 <= k < vertices.Base(i) + 15) ::
              output[k] == old(output[k])
  {
    hide Packed, WeightWord, FromBytes;
    var packed := PackInfluences(vertices.weights.value, at + 4, WordAt(vertices.weights.value, at), conversions);
    var base := vertices.Base(i);
    output[base + 13] := FromBytes(packed.bones[0], packed.bones[1], packed.bones[2], packed.bones[3]);
    output[base + 14] := WeightWord(packed.amounts);
  }

  /**
   In an encoded destination, the weight bytes of a vertex add up to 255 exactly when no correction
   went below zero.
   */
  lemma {:induction false} EncodedWeightsAddUp(vertices: Vertices, conversions: Conversions, words: seq<u32>, i: nat)
    requires vertices.Valid() && Encoded(vertices, conversions, words) && i < vertices.Count() && vertices.weights.Some?
    ensures Refusal(vertices, i).None? && WeightsFit(vertices.weights.value, CursorOf(vertices, i))
    ensures var weights, at := vertices.weights.value, CursorOf(vertices, i);
            && vertices.Base(i) + 14 < |words|
            && (ByteSum(words[vertices.Base(i) + 14]) == 255
                <==> Others(Stored(weights, at + 4, WordAt(weights, at), conversions).amounts) <= 255)
  {
    hide Packed, WeightWord, ByteSum, Others, Stored, Refusal, CursorOf;
    assert Holds(vertices, conversions, words, i);
    HeldWord(vertices, conversions, words, i, 14);
    var weights, at := vertices.weights.value, CursorOf(vertices, i);
    PackedWeightsAddUp(weights, at + 4, WordAt(weights, at), conversions);
  }
}
