/**
 The 32-bit strip stream between the FMOD reader and the mesh compiler: its printer
 (geometry/src/fmod.rs, `encode_into`) and its parser (the header loop of geometry/src/mesh.rs).
 */
module StripStream {
  import opened Wrappers
  import opened Words
  import opened TriangleStrips

  datatype Error =
    | Overflow
    | TooLarge
    | TruncatedVertexArray
    | InvalidStripCount
    | TruncatedHeader
    | TruncatedSelector
    | TruncatedIndices
    | ShortStrip
    | VertexIndex(index: u32)
    | NonFinitePosition
    | BoneOutOfRange
    | TrailingData

  datatype RawStrip = RawStrip(reversed: bool, material: u32, variant: u32, indices: seq<u32>) {
    /** A header has 31 bits for the length, and a strip needs one triangle. */
    predicate Fits() {
      3 <= |indices| < 0x8000_0000
    }

    function Key(): Key {
      Selectors(material, variant)
    }
  }

  type Strip = s: RawStrip | s.Fits() witness RawStrip(false, 0, 0, [0, 0, 0])

  /** A selector that the flags leave out of the stream is zero. */
  datatype Key = Selectors(material: u32, variant: u32)

  /** `flags & MATERIAL != 0` */
  predicate HasMaterial(flags: u32) {
    flags / 0x10_0000 % 2 == 1
  }

  /** `flags & VARIANT != 0` */
  predicate HasVariant(flags: u32) {
    flags / 0x20_0000 % 2 == 1
  }

  function DescriptorStride(flags: u32): (stride: nat)
    ensures 1 <= stride <= 3
  {
    1 + (if HasMaterial(flags) then 1 else 0) + (if HasVariant(flags) then 1 else 0)
  }

  /** Byte count of an allocation the 32-bit client can address. */
  function ByteSize(count: nat, stride: nat): Result<u32, Error> {
    if count * stride > USIZE_MAX then Err(Overflow)
    else if count * stride > I32_MAX then Err(TooLarge)
    else Ok(count * stride)
  }

  function SelectorWords(key: Key, flags: u32): (words: seq<u32>)
    ensures |words| == DescriptorStride(flags) - 1
  {
    (if HasMaterial(flags) then [key.material] else []) + (if HasVariant(flags) then [key.variant] else [])
  }

  /** The selectors that follow the word at `at`. */
  function KeyAt(words: seq<u32>, at: nat, flags: u32): Key
    requires at + DescriptorStride(flags) <= |words|
  {
    Selectors(if HasMaterial(flags) then words[at + 1] else 0,
              if HasVariant(flags) then words[at + if HasMaterial(flags) then 2 else 1] else 0)
  }

  /** The part of a strip that the flags let through. */
  function Selected(strip: Strip, flags: u32): Strip {
    strip.(material := if HasMaterial(flags) then strip.material else 0,
           variant := if HasVariant(flags) then strip.variant else 0)
  }

  function SelectAll(strips: seq<Strip>, flags: u32): seq<Strip> {
    seq(|strips|, i requires 0 <= i < |strips| => Selected(strips[i], flags))
  }

  // ---------- printer ----------

  function Header(strip: Strip): u32 {
    |strip.indices| + if strip.reversed then 0x8000_0000 else 0
  }

  function EncodeStrip(strip: Strip, flags: u32): (words: seq<u32>)
    ensures |words| == DescriptorStride(flags) + |strip.indices|
  {
    [Header(strip)] + SelectorWords(strip.Key(), flags) + strip.indices
  }

  function Encode(strips: seq<Strip>, flags: u32): seq<u32>
  {
    if strips == [] then [] else EncodeStrip(strips[0], flags) + Encode(strips[1..], flags)
  }

  // ---------- parser ----------

  /** One header, the selectors that the flags announce, and its indices. */
  function ReadStrip(stream: seq<u32>, cursor: nat, flags: u32): (r: Result<Strip, Error>)
    ensures r.Ok? ==> cursor + StripWords(r.value, flags) <= |stream|
  {
    if cursor >= |stream| then Err(TruncatedHeader)
    else
      var count := stream[cursor] % 0x8000_0000;
      var start := cursor + DescriptorStride(flags);
      if |stream| < start then Err(TruncatedSelector)
      else if |stream| < start + count then Err(TruncatedIndices)
      else if count < 3 then Err(ShortStrip)
      else
        var key := KeyAt(stream, cursor, flags);
        Ok(RawStrip(stream[cursor] >= 0x8000_0000, key.material, key.variant, stream[start..start + count]))
  }

  function StripWords(strip: Strip, flags: u32): nat {
    DescriptorStride(flags) + |strip.indices|
  }

  /** The words of a printed strip, under each of the flag words an FMOD object is drawn with. */
  lemma {:induction false} PrintedWords(strip: Strip)
    ensures var header: u32 := |strip.indices| + if strip.reversed then 0x8000_0000 else 0;
            && EncodeStrip(strip, 0x2_1000) == [header] + strip.indices
            && EncodeStrip(strip, 0x12_1000) == [header, strip.material] + strip.indices
            && EncodeStrip(strip, 0x22_1000) == [header, strip.variant] + strip.indices
            && EncodeStrip(strip, 0x32_1000) == [header, strip.material, strip.variant] + strip.indices
  {
    assert SelectorWords(strip.Key(), 0x2_1000) == [];
    assert SelectorWords(strip.Key(), 0x12_1000) == [strip.material];
    assert SelectorWords(strip.Key(), 0x22_1000) == [strip.variant];
    assert SelectorWords(strip.Key(), 0x32_1000) == [strip.material, strip.variant];
  }

  /** What the flag words leave of a strip's selectors. */
  lemma {:induction false} SelectorsOfFlags(strip: Strip)
    ensures Selected(strip, 0x2_1000) == RawStrip(strip.reversed, 0, 0, strip.indices)
    ensures Selected(strip, 0x12_1000) == RawStrip(strip.reversed, strip.material, 0, strip.indices)
    ensures Selected(strip, 0x22_1000) == RawStrip(strip.reversed, 0, strip.variant, strip.indices)
    ensures Selected(strip, 0x32_1000) == strip
  {
  }

  lemma {:induction false} ReadEncodedStrip(before: seq<u32>, strip: Strip, flags: u32, rest: seq<u32>)
    ensures ReadStrip(before + EncodeStrip(strip, flags) + rest, |before|, flags) == Ok(Selected(strip, flags))
  {
    var words := before + EncodeStrip(strip, flags) + rest;
    var start := |before| + DescriptorStride(flags);
    assert words[|before|] == Header(strip);
    assert words[|before| + 1..start] == SelectorWords(strip.Key(), flags);
    assert forall i | 0 <= i < DescriptorStride(flags) - 1 ::
      words[|before| + 1 + i] == SelectorWords(strip.Key(), flags)[i];
    assert words[start..start + |strip.indices|] == strip.indices;
  }

  lemma {:induction false} EncodeReadStrip(stream: seq<u32>, cursor: nat, flags: u32)
    requires ReadStrip(stream, cursor, flags).Ok?
    ensures var strip := ReadStrip(stream, cursor, flags).value;
            && stream[cursor..cursor + StripWords(strip, flags)] == EncodeStrip(strip, flags)
            && Selected(strip, flags) == strip
  {
    var strip := ReadStrip(stream, cursor, flags).value;
    var start := cursor + DescriptorStride(flags);
    assert Header(strip) == stream[cursor];
    assert SelectorWords(strip.Key(), flags) == stream[cursor + 1..start];
    assert stream[cursor..start + |strip.indices|]
           == [stream[cursor]] + stream[cursor + 1..start] + stream[start..start + |strip.indices|];
  }

  /** Exactly `count` strips and nothing after them, or the first error. */
  function ReadStrips(stream: seq<u32>, cursor: nat, count: nat, flags: u32): Result<seq<Strip>, Error>
    decreases count
  {
    if count == 0 then
      if cursor == |stream| then Ok([]) else Err(TrailingData)
    else
      match ReadStrip(stream, cursor, flags)
      case Err(error) => Err(error)
      case Ok(strip) =>
        match ReadStrips(stream, cursor + StripWords(strip, flags), count - 1, flags)
        case Err(error) => Err(error)
        case Ok(strips) => Ok([strip] + strips)
  }

  /** Printing then parsing gives back the strips, as far as the flags select them. */
  lemma {:induction false} ReadEncoded(strips: seq<Strip>, flags: u32)
    ensures ReadStrips(Encode(strips, flags), 0, |strips|, flags) == Ok(SelectAll(strips, flags))
  {
    assert [] + Encode(strips, flags) == Encode(strips, flags);
    ReadEncodedAfter([], strips, flags);
  }

  lemma {:induction false} ReadEncodedAfter(before: seq<u32>, strips: seq<Strip>, flags: u32)
    ensures ReadStrips(before + Encode(strips, flags), |before|, |strips|, flags) == Ok(SelectAll(strips, flags))
    decreases |strips|
  {
    hide ReadStrip, ReadStrips;
    if strips == [] {
      assert SelectAll(strips, flags) == [];
      assert before + Encode(strips, flags) == before;
      ReadNone(before, flags);
    } else {
      var words, rest := EncodeStrip(strips[0], flags), Encode(strips[1..], flags);
      var stream := before + words + rest;
      assert before + Encode(strips, flags) == stream by {
        assert Encode(strips, flags) == words + rest;
      }
      ReadEncodedStrip(before, strips[0], flags, rest);
      ReadEncodedAfter(before + words, strips[1..], flags);
      ReadMore(stream, |before|, Selected(strips[0], flags), SelectAll(strips[1..], flags), |strips|, flags);
      assert SelectAll(strips, flags) == [Selected(strips[0], flags)] + SelectAll(strips[1..], flags);
    }
  }

  lemma {:induction false} ReadNone(stream: seq<u32>, flags: u32)
    ensures ReadStrips(stream, |stream|, 0, flags) == Ok([])
  {
  }

  lemma {:induction false} ReadMore(stream: seq<u32>, cursor: nat, strip: Strip, strips: seq<Strip>, count: nat,
                                    flags: u32)
    requires count > 0 && ReadStrip(stream, cursor, flags) == Ok(strip)
    requires ReadStrips(stream, cursor + StripWords(strip, flags), count - 1, flags) == Ok(strips)
    ensures ReadStrips(stream, cursor, count, flags) == Ok([strip] + strips)
  {
  }

  /** Parsing then printing gives back the stream, so accepted streams and strip lists correspond. */
  lemma {:induction false} EncodeRead(stream: seq<u32>, cursor: nat, count: nat, flags: u32)
    requires ReadStrips(stream, cursor, count, flags).Ok?
    ensures var strips := ReadStrips(stream, cursor, count, flags).value;
            && |strips| == count && cursor <= |stream|
            && stream[cursor..] == Encode(strips, flags)
            && SelectAll(strips, flags) == strips
    decreases count
  {
    if count > 0 {
      var strip := ReadStrip(stream, cursor, flags).value;
      var next := cursor + StripWords(strip, flags);
      EncodeReadStrip(stream, cursor, flags);
      hide ReadStrip, EncodeStrip, Selected;
      EncodeRead(stream, next, count - 1, flags);
      EncodeMore(stream, cursor, next, strip, ReadStrips(stream, next, count - 1, flags).value, flags);
    }
  }

  lemma {:induction false} EncodeMore(stream: seq<u32>, cursor: nat, next: nat, strip: Strip, strips: seq<Strip>,
                                      flags: u32)
    requires cursor <= next <= |stream|
    requires stream[cursor..next] == EncodeStrip(strip, flags) && stream[next..] == Encode(strips, flags)
    ensures stream[cursor..] == Encode([strip] + strips, flags)
    ensures SelectAll([strip] + strips, flags) == [Selected(strip, flags)] + SelectAll(strips, flags)
  {
    hide EncodeStrip, Selected;
    assert ([strip] + strips)[1..] == strips;
    assert stream[cursor..] == stream[cursor..next] + stream[next..];
  }
}
