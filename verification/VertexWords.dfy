/**
 What an encoded vertex says (geometry/src/vertex.rs, `encode_into`), word by word and byte by byte,
 and which vertex an encoding is refused for.
 */
module VertexWords {
  import opened Wrappers
  import opened Words
  import opened WordBits
  import opened VertexPacking

  lemma {:induction false} BaseIs(vertices: Vertices, i: nat)
    ensures vertices.Base(i) == i * vertices.Stride()
  {
  }

  /** Position, normal, texture coordinate and attribute words are those of the source arrays. */
  lemma {:induction false} EncodedAttributes(vertices: Vertices, conversions: Conversions, words: seq<u32>, i: nat,
                                             axis: nat)
    requires vertices.Valid() && Encoded(vertices, conversions, words) && i < vertices.Count() && axis < 4
    ensures (i + 1) * vertices.Stride() <= |words|
    ensures var base := i * vertices.Stride();
            && (axis < 3 ==>
                  && words[base + axis] == WordAt(vertices.positions, 12 * i + 4 * axis)
                  && words[base + 3 + axis] == WordAt(vertices.normals, 12 * i + 4 * axis))
            && (axis < 2 && vertices.uvs.Some? ==>
                  words[base + 7 + axis] == WordAt(vertices.uvs.value, 8 * i + 4 * axis))
            && (vertices.weights.Some? ==>
                  words[base + 9 + axis]
                  == if vertices.attribute.Some? then WordAt(vertices.attribute.value, 16 * i + 4 * axis) else 0)
  {
    hide Refusal, CursorOf, Packed, WeightWord, FromBytes, ColorWord, WordAt;
    BaseIs(vertices, i);
    assert Holds(vertices, conversions, words, i);
    assert vertices.Base(i + 1) == (i + 1) * vertices.Stride();
    if axis < 3 {
      HeldWord(vertices, conversions, words, i, axis);
      HeldWord(vertices, conversions, words, i, 3 + axis);
    }
    if axis < 2 && vertices.uvs.Some? {
      HeldWord(vertices, conversions, words, i, 7 + axis);
    }
    if vertices.weights.Some? {
      HeldWord(vertices, conversions, words, i, 9 + axis);
    }
  }

  /** Colour channels that convert to bytes are the four bytes of the colour word: alpha, red, green, blue. */
  lemma {:induction false} EncodedColor(vertices: Vertices, conversions: Conversions, words: seq<u32>, i: nat,
                                        red: byte, green: byte, blue: byte, alpha: byte)
    requires vertices.Valid() && Encoded(vertices, conversions, words) && i < vertices.Count()
    requires conversions.color(WordAt(vertices.colors, 16 * i)) == red
    requires conversions.color(WordAt(vertices.colors, 16 * i + 4)) == green
    requires conversions.color(WordAt(vertices.colors, 16 * i + 8)) == blue
    requires conversions.color(WordAt(vertices.colors, 16 * i + 12)) == alpha
    ensures i * vertices.Stride() + 6 < |words|
    ensures var word := words[i * vertices.Stride() + 6];
            ByteOf(word, 0) == alpha && ByteOf(word, 1) == red && ByteOf(word, 2) == green && ByteOf(word, 3) == blue
  {
    hide Refusal, CursorOf, Packed, WeightWord, FromBytes, WordAt, Pack, ByteOf;
    BaseIs(vertices, i);
    assert Holds(vertices, conversions, words, i);
    HeldWord(vertices, conversions, words, i, 6);
    assert words[i * vertices.Stride() + 6] == ColorWord(vertices, conversions, i);
    PackedSideBySide(alpha, red, green, blue);
    WordOfBytes(alpha, red, green, blue);
  }

  // ---------- influences ----------

  /** The pass pulls a share into every place whose successor had one. */
  lemma {:induction false} ForwardCloses(influences: Influences, i: nat, end: nat, k: nat)
    requires influences.Four() && i <= k < end <= 3 && influences.amounts[k + 1] != 0
    ensures Forward(influences, i, end).amounts[k] != 0
    decreases end - i
  {
    if i < k {
      ForwardCloses(Pulled(influences, i), i + 1, end, k);
    } else {
      ForwardKeepsEarlier(Pulled(influences, i), i + 1, end, k);
    }
  }

  /** A place that the pass has left behind stays as it is. */
  lemma {:induction false} ForwardKeepsEarlier(influences: Influences, i: nat, end: nat, k: nat)
    requires influences.Four() && end <= 3 && k < i && k < 4
    ensures Forward(influences, i, end).amounts[k] == influences.amounts[k]
    ensures Forward(influences, i, end).bones[k] == influences.bones[k]
    decreases end - i
  {
    if i < end {
      ForwardKeepsEarlier(Pulled(influences, i), i + 1, end, k);
    }
  }

  /** Influences without gaps stay where they are. */
  lemma {:induction false} ForwardKeepsFull(influences: Influences, i: nat, end: nat)
    requires influences.Four() && end <= 3 && forall k | i <= k < end :: influences.amounts[k] != 0
    ensures Forward(influences, i, end) == influences
    decreases end - i
  {
    if i < end {
      ForwardKeepsFull(influences, i + 1, end);
    }
  }

  /** The stored influences of a vertex, with the last share brought to what 255 leaves for it. */
  function CorrectedOf(vertices: Vertices, conversions: Conversions, at: nat): (influences: Influences)
    requires vertices.weights.Some? && WeightsFit(vertices.weights.value, at)
    ensures influences.Four()
  {
    var stored := Stored(vertices.weights.value, at + 4, WordAt(vertices.weights.value, at), conversions);
    Influences(stored.bones, Corrected(stored.amounts))
  }

  /** Where a vertex's influences say which bone has which share, the correction touches only the last share. */
  lemma {:induction false} CorrectedShares(vertices: Vertices, conversions: Conversions, at: nat, k: nat)
    requires vertices.weights.Some? && WeightsFit(vertices.weights.value, at) && k < 4
    ensures var weights, influences := vertices.weights.value, CorrectedOf(vertices, conversions, at);
            var count := WordAt(weights, at);
            && influences.bones[k] == (if k < count then WordAt(weights, at + 4 + 8 * k) % 0x100 else 0)
            && Sum(influences.amounts) == 255
            && ((exists j :: k < j < count && conversions.weight(WordAt(weights, at + 8 + 8 * j)) != 0) ==>
                  influences.amounts[k] == conversions.weight(WordAt(weights, at + 8 + 8 * k)))
            && (0 < k && (k >= count || conversions.weight(WordAt(weights, at + 8 + 8 * k)) == 0) ==>
                  influences.amounts[k] == 0)
  {
    hide WordAt;
    var weights, count := vertices.weights.value, WordAt(vertices.weights.value, at);
    var stored := Stored(weights, at + 4, count, conversions);
    assert forall j | 0 <= j < count :: stored.amounts[j] == conversions.weight(WordAt(weights, at + 8 + 8 * j));
    var last := LastShare(stored.amounts, 4);
  }

  /**
   The bone and weight words of a vertex hold, byte by byte, the result of one forward pass over its
   corrected influences, as long as the correction does not fall below zero.
   */
  lemma {:induction false} EncodedInfluences(vertices: Vertices, conversions: Conversions, words: seq<u32>, i: nat,
                                             k: nat)
    requires vertices.Valid() && Encoded(vertices, conversions, words) && i < vertices.Count() && k < 4
    requires vertices.weights.Some?
    ensures Refusal(vertices, i).None? && WeightsFit(vertices.weights.value, CursorOf(vertices, i))
    ensures i * 15 + 14 < |words|
    ensures var corrected := CorrectedOf(vertices, conversions, CursorOf(vertices, i));
            var packed :=
              Forward(corrected, 0, Passes(WordAt(vertices.weights.value, CursorOf(vertices, i))));
            && ByteOf(words[i * 15 + 13], k) == packed.bones[k]
            && ((forall j | 0 <= j < 4 :: corrected.amounts[j] >= 0) ==>
                  ByteOf(words[i * 15 + 14], k) == packed.amounts[k])
            && Shares(packed) == Shares(corrected)
  {
    hide Refusal, CursorOf, WordAt, Pack, ByteOf, FromBytes, Stored, Forward, Corrected, Shares, BoneTotal, Sum;
    assert vertices.Base(i) == i * 15;
    assert Holds(vertices, conversions, words, i);
    HeldWord(vertices, conversions, words, i, 13);
    HeldWord(vertices, conversions, words, i, 14);
    var at := CursorOf(vertices, i);
    var count := WordAt(vertices.weights.value, at);
    var corrected := CorrectedOf(vertices, conversions, at);
    var packed := Forward(corrected, 0, Passes(count));
    assert packed == Packed(vertices.weights.value, at + 4, count, conversions);
    ForwardKeepsShares(corrected, 0, Passes(count), 0);
    WordOfBytes(packed.bones[0], packed.bones[1], packed.bones[2], packed.bones[3]);
    if forall j | 0 <= j < 4 :: corrected.amounts[j] >= 0 {
      ForwardKeepsBytes(vertices, conversions, at, Passes(count));
      WeightBytes(packed.amounts);
    }
  }

  lemma {:induction false} WeightBytes(amounts: seq<int>)
    requires |amounts| == 4 && forall j | 0 <= j < 4 :: 0 <= amounts[j] <= 255
    ensures forall k | 0 <= k < 4 :: ByteOf(WeightWord(amounts), k) == amounts[k]
  {
    hide Pack, ByteOf, FromBytes;
    PackedSideBySide(amounts[0], amounts[1], amounts[2], amounts[3]);
    WordOfBytes(amounts[0], amounts[1], amounts[2], amounts[3]);
  }

  ghost predicate AllBytes(amounts: seq<int>) {
    |amounts| == 4 && forall j | 0 <= j < 4 :: 0 <= amounts[j] <= 255
  }

  lemma {:induction false} ForwardStaysBytes(influences: Influences, i: nat, end: nat)
    requires influences.Four() && end <= 3 && AllBytes(influences.amounts)
    ensures AllBytes(Forward(influences, i, end).amounts)
    decreases end - i
  {
    if i < end {
      ForwardStaysBytes(Pulled(influences, i), i + 1, end);
    }
  }

  lemma {:induction false} ForwardKeepsBytes(vertices: Vertices, conversions: Conversions, at: nat, end: nat)
    requires vertices.weights.Some? && WeightsFit(vertices.weights.value, at) && end <= 3
    requires forall j | 0 <= j < 4 :: CorrectedOf(vertices, conversions, at).amounts[j] >= 0
    ensures AllBytes(Forward(CorrectedOf(vertices, conversions, at), 0, end).amounts)
  {
    hide WordAt, Forward;
    var corrected := CorrectedOf(vertices, conversions, at);
    assert AllBytes(corrected.amounts);
    ForwardStaysBytes(corrected, 0, end);
  }

  // ---------- refusals ----------

  /** An encoding is refused for the first vertex whose weights do not fit, and for what is wrong with them. */
  lemma {:induction false} RefusedFor(vertices: Vertices, n: nat) returns (i: nat)
    requires vertices.Valid() && n <= vertices.Count() && Refusal(vertices, n).Some?
    ensures i < n && vertices.weights.Some? && Refusal(vertices, i).None?
    ensures var weights, at, error := vertices.weights.value, CursorOf(vertices, i), Refusal(vertices, n).value;
            && (error == TruncatedWeightCount || error == TooManyInfluences || error == TruncatedWeights)
            && (error == TruncatedWeightCount <==> at + 4 > |weights|)
            && (error == TooManyInfluences <==> at + 4 <= |weights| && WordAt(weights, at) > 4)
            && (error == TruncatedWeights <==> && at + 4 <= |weights| && WordAt(weights, at) <= 4
                                               && at + 4 + 8 * WordAt(weights, at) > |weights|)
  {
    if Refusal(vertices, n - 1).Some? {
      i := RefusedFor(vertices, n - 1);
    } else {
      i := n - 1;
    }
  }
}
