/** Shifts and disjunction of 32-bit words, byte by byte. */
module WordBits {
  import opened Words

  /** The bits that either number has. */
  function Or(x: nat, y: nat): nat {
    if x == 0 then y
    else if y == 0 then x
    else 2 * Or(x / 2, y / 2) + if x % 2 == 1 || y % 2 == 1 then 1 else 0
  }

  /** `x << k` */
  function Up(x: nat, k: nat): nat {
    if k == 0 then x else 2 * Up(x, k - 1)
  }

  lemma {:induction false} UpByte(x: nat)
    ensures Up(x, 8) == 0x100 * x
  {
    assert Up(x, 1) == 2 * x;
    assert Up(x, 2) == 4 * x;
    assert Up(x, 3) == 8 * x;
    assert Up(x, 4) == 16 * x;
    assert Up(x, 5) == 32 * x;
    assert Up(x, 6) == 64 * x;
    assert Up(x, 7) == 128 * x;
  }

  lemma {:induction false} OrBounds(x: nat, y: nat, k: nat)
    requires x < Up(1, k) && y < Up(1, k)
    ensures x <= Or(x, y) < Up(1, k) && y <= Or(x, y)
  {
    if x != 0 && y != 0 {
      OrBounds(x / 2, y / 2, k - 1);
    }
  }

  /** Low and high parts do not meet. */
  lemma {:induction false} OrParts(high: nat, low: nat, otherHigh: nat, otherLow: nat, k: nat)
    requires low < Up(1, k) && otherLow < Up(1, k)
    ensures Or(Up(high, k) + low, Up(otherHigh, k) + otherLow) == Up(Or(high, otherHigh), k) + Or(low, otherLow)
  {
    hide Or;
    if k == 0 {
      assert Or(0, 0) == 0 by { OrNoBits(); }
    } else {
      OrParts(high, low / 2, otherHigh, otherLow / 2, k - 1);
      OrStep(Up(high, k) + low, Up(otherHigh, k) + otherLow, Up(high, k - 1), Up(otherHigh, k - 1), low, otherLow,
             Up(Or(high, otherHigh), k - 1));
    }
  }

  lemma {:induction false} OrNoBits()
    ensures Or(0, 0) == 0
  {
  }

  lemma {:induction false} OrStep(x: nat, y: nat, high: nat, otherHigh: nat, low: nat, otherLow: nat, joined: nat)
    requires x / 2 == high + low / 2 && y / 2 == otherHigh + otherLow / 2 && x % 2 == low % 2 && y % 2 == otherLow % 2
    requires Or(high + low / 2, otherHigh + otherLow / 2) == joined + Or(low / 2, otherLow / 2)
    ensures Or(x, y) == 2 * joined + Or(low, otherLow)
  {
    hide Or;
    OrHalves(x, y);
    OrHalves(low, otherLow);
  }

  lemma {:induction false} OrHalves(x: nat, y: nat)
    ensures Or(x, y) == 2 * Or(x / 2, y / 2) + if x % 2 == 1 || y % 2 == 1 then 1 else 0
  {
    if x == 0 {
      assert Or(0, y / 2) == y / 2;
    } else if y == 0 {
      assert Or(x / 2, 0) == x / 2;
    }
  }

  /** The word with these bytes, most significant first. */
  function FromBytes(b0: byte, b1: byte, b2: byte, b3: byte): u32 {
    var high: int, upper: int, lower: int, low: int := b0, b1, b2, b3;
    0x100_0000 * high + 0x1_0000 * upper + 0x100 * lower + low
  }

  function ByteOf(word: u32, place: nat): byte
    requires place < 4
  {
    if place == 0 then word / 0x100_0000
    else if place == 1 then word / 0x1_0000 % 0x100
    else if place == 2 then word / 0x100 % 0x100
    else word % 0x100
  }

  lemma {:induction false} BytesOfWord(word: u32)
    ensures word == FromBytes(ByteOf(word, 0), ByteOf(word, 1), ByteOf(word, 2), ByteOf(word, 3))
  {
    var n: int := word;
    assert n / 0x100 == n / 0x1_0000 * 0x100 + n / 0x100 % 0x100;
    assert n / 0x1_0000 == n / 0x100_0000 * 0x100 + n / 0x1_0000 % 0x100;
  }

  lemma {:induction false} WordOfBytes(b0: byte, b1: byte, b2: byte, b3: byte)
    ensures var word := FromBytes(b0, b1, b2, b3);
            ByteOf(word, 0) == b0 && ByteOf(word, 1) == b1 && ByteOf(word, 2) == b2 && ByteOf(word, 3) == b3
  {
    var word: int, high: int, upper: int, lower: int := FromBytes(b0, b1, b2, b3), b0, b1, b2;
    assert word / 0x100 == 0x1_0000 * high + 0x100 * upper + lower;
    assert word / 0x1_0000 == 0x100 * high + upper;
    assert word / 0x100_0000 == high;
  }

  function OrByte(x: byte, y: byte): (z: byte)
    ensures x <= z && y <= z
  {
    UpByte(1);
    OrBounds(x, y, 8);
    Or(x, y)
  }

  function OrWord(x: u32, y: u32): u32 {
    FromBytes(OrByte(ByteOf(x, 0), ByteOf(y, 0)), OrByte(ByteOf(x, 1), ByteOf(y, 1)),
              OrByte(ByteOf(x, 2), ByteOf(y, 2)), OrByte(ByteOf(x, 3), ByteOf(y, 3)))
  }

  lemma {:induction false} OrWordBytes(x0: byte, x1: byte, x2: byte, x3: byte, y0: byte, y1: byte, y2: byte, y3: byte)
    ensures OrWord(FromBytes(x0, x1, x2, x3), FromBytes(y0, y1, y2, y3))
            == FromBytes(OrByte(x0, y0), OrByte(x1, y1), OrByte(x2, y2), OrByte(x3, y3))
  {
    hide FromBytes, ByteOf, OrByte;
    WordOfBytes(x0, x1, x2, x3);
    WordOfBytes(y0, y1, y2, y3);
  }

  /** Joining words byte by byte is joining their bits. */
  lemma {:induction false} OrWordIsOr(x: u32, y: u32)
    ensures OrWord(x, y) == Or(x, y)
  {
    BytesOfWord(x);
    BytesOfWord(y);
    OrOfBytes(ByteOf(x, 0), ByteOf(x, 1), ByteOf(x, 2), ByteOf(x, 3),
              ByteOf(y, 0), ByteOf(y, 1), ByteOf(y, 2), ByteOf(y, 3));
  }

  lemma {:induction false} OrOfBytes(x0: byte, x1: byte, x2: byte, x3: byte, y0: byte, y1: byte, y2: byte, y3: byte)
    ensures Or(FromBytes(x0, x1, x2, x3), FromBytes(y0, y1, y2, y3))
            == FromBytes(OrByte(x0, y0), OrByte(x1, y1), OrByte(x2, y2), OrByte(x3, y3))
  {
    hide Or, Up;
    UpByte(1);
    UpByte(x0);
    UpByte(y0);
    UpByte(x0 * 0x100 + x1);
    UpByte(y0 * 0x100 + y1);
    UpByte((x0 * 0x100 + x1) * 0x100 + x2);
    UpByte((y0 * 0x100 + y1) * 0x100 + y2);
    UpByte(Or(x0, y0));
    UpByte(Or(x0 * 0x100 + x1, y0 * 0x100 + y1));
    UpByte(Or((x0 * 0x100 + x1) * 0x100 + x2, (y0 * 0x100 + y1) * 0x100 + y2));
    OrParts(x0, x1, y0, y1, 8);
    OrParts(x0 * 0x100 + x1, x2, y0 * 0x100 + y1, y2, 8);
    OrParts((x0 * 0x100 + x1) * 0x100 + x2, x3, (y0 * 0x100 + y1) * 0x100 + y2, y3, 8);
  }

  /** A left shift by whole bytes; what leaves the word is lost. */
  function ShiftBytes(word: u32, places: nat): u32
    requires places < 4
  {
    if places == 0 then word
    else if places == 1 then word * 0x100 % 0x1_0000_0000
    else if places == 2 then word * 0x1_0000 % 0x1_0000_0000
    else word * 0x100_0000 % 0x1_0000_0000
  }

  lemma {:induction false} ShiftedBytes(b0: byte, b1: byte, b2: byte, b3: byte)
    ensures ShiftBytes(FromBytes(b0, b1, b2, b3), 1) == FromBytes(b1, b2, b3, 0)
    ensures ShiftBytes(FromBytes(b0, b1, b2, b3), 2) == FromBytes(b2, b3, 0, 0)
    ensures ShiftBytes(FromBytes(b0, b1, b2, b3), 3) == FromBytes(b3, 0, 0, 0)
  {
    var word: int := FromBytes(b0, b1, b2, b3);
    var high: int, upper: int, lower: int := b0, b1, b2;
    Remainder(word * 0x100, high, FromBytes(b1, b2, b3, 0));
    Remainder(word * 0x1_0000, 0x100 * high + upper, FromBytes(b2, b3, 0, 0));
    Remainder(word * 0x100_0000, 0x1_0000 * high + 0x100 * upper + lower, FromBytes(b3, 0, 0, 0));
  }

  lemma {:induction false} Remainder(n: int, quotient: int, rest: u32)
    requires n == 0x1_0000_0000 * quotient + rest
    ensures n % 0x1_0000_0000 == rest
  {
  }

  /** Four numbers shifted into one word, as `a << 24 | b << 16 | c << 8 | d`. */
  function Pack(a: u32, b: u32, c: u32, d: u32): u32 {
    OrWord(OrWord(OrWord(ShiftBytes(a, 3), ShiftBytes(b, 2)), ShiftBytes(c, 1)), d)
  }

  lemma {:induction false} OrNothing(x: byte)
    ensures OrByte(x, 0) == x && OrByte(0, x) == x
  {
  }

  /** The bytes of a packed word: each number's low byte, joined with what the later numbers have above theirs. */
  lemma {:induction false} PackedWord(a: u32, b: u32, c: u32, d: u32)
    ensures Pack(a, b, c, d)
            == FromBytes(OrByte(OrByte(OrByte(ByteOf(a, 3), ByteOf(b, 2)), ByteOf(c, 1)), ByteOf(d, 0)),
                         OrByte(OrByte(ByteOf(b, 3), ByteOf(c, 2)), ByteOf(d, 1)),
                         OrByte(ByteOf(c, 3), ByteOf(d, 2)),
                         ByteOf(d, 3))
  {
    BytesOfWord(a);
    BytesOfWord(b);
    BytesOfWord(c);
    BytesOfWord(d);
    hide FromBytes, ByteOf, OrByte, OrWord, ShiftBytes;
    ShiftedBytes(ByteOf(a, 0), ByteOf(a, 1), ByteOf(a, 2), ByteOf(a, 3));
    ShiftedBytes(ByteOf(b, 0), ByteOf(b, 1), ByteOf(b, 2), ByteOf(b, 3));
    ShiftedBytes(ByteOf(c, 0), ByteOf(c, 1), ByteOf(c, 2), ByteOf(c, 3));
    var low, upper, lower := ByteOf(a, 3), ByteOf(b, 3), ByteOf(c, 3);
    OrNothing(0);
    OrNothing(upper);
    OrWordBytes(low, 0, 0, 0, ByteOf(b, 2), upper, 0, 0);
    OrNothing(lower);
    OrWordBytes(OrByte(low, ByteOf(b, 2)), upper, 0, 0, ByteOf(c, 1), ByteOf(c, 2), lower, 0);
    OrNothing(ByteOf(d, 3));
    OrWordBytes(OrByte(OrByte(low, ByteOf(b, 2)), ByteOf(c, 1)), OrByte(upper, ByteOf(c, 2)), lower, 0,
                ByteOf(d, 0), ByteOf(d, 1), ByteOf(d, 2), ByteOf(d, 3));
  }

  /** Numbers of one byte each stand side by side. */
  lemma {:induction false} PackedSideBySide(a: byte, b: byte, c: byte, d: byte)
    ensures Pack(a, b, c, d) == FromBytes(a, b, c, d)
  {
    PackedWord(a, b, c, d);
    OneByte(a);
    OneByte(b);
    OneByte(c);
    OneByte(d);
    OrNothing(a);
    OrNothing(b);
    OrNothing(c);
  }

  lemma {:induction false} OneByte(x: byte)
    ensures ByteOf(x, 0) == 0 && ByteOf(x, 1) == 0 && ByteOf(x, 2) == 0 && ByteOf(x, 3) == x
  {
  }

  /** Each byte of the packed word holds at least the low byte of its own number. */
  lemma {:induction false} PackedAtLeast(a: u32, b: u32, c: u32, d: u32)
    ensures var word := Pack(a, b, c, d);
            && ByteOf(word, 0) >= a % 0x100 && ByteOf(word, 1) >= b % 0x100
            && ByteOf(word, 2) >= c % 0x100 && ByteOf(word, 3) >= d % 0x100
  {
    hide FromBytes, Pack;
    PackedWord(a, b, c, d);
    WordOfBytes(OrByte(OrByte(OrByte(ByteOf(a, 3), ByteOf(b, 2)), ByteOf(c, 1)), ByteOf(d, 0)),
                OrByte(OrByte(ByteOf(b, 3), ByteOf(c, 2)), ByteOf(d, 1)),
                OrByte(ByteOf(c, 3), ByteOf(d, 2)),
                ByteOf(d, 3));
  }
}
