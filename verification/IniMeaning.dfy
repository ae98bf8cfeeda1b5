/**
 What the INI view's texts mean (config/src/service.rs: `to_ini`, `parse_ini`, `integer`), told
 without the functions that read and print them: which texts stand for a value, and which text
 shows it.
 */
module IniMeaning {
  import opened Wrappers
  import opened TomlTables
  import opened IniValues

  // ---------- white space ----------

  predicate AllSpace(s: string) {
    forall i | 0 <= i < |s| :: Whitespace(s[i])
  }

  predicate Around(text: string, left: string, core: string, right: string) {
    && text == left + core + right && AllSpace(left) && AllSpace(right)
    && (core != "" ==> !Whitespace(core[0]) && !Whitespace(core[|core| - 1]))
  }

  /** The text is `core` with white space around it. */
  ghost predicate Surrounded(text: string, core: string) {
    exists left, right :: Around(text, left, core, right)
  }

  lemma {:induction false} TrimStartDrops(left: string, rest: string)
    requires AllSpace(left)
    ensures TrimStart(left + rest) == TrimStart(rest)
  {
    if left == "" {
      assert left + rest == rest;
    } else {
      assert (left + rest)[1..] == left[1..] + rest;
      TrimStartDrops(left[1..], rest);
    }
  }

  lemma {:induction false} TrimEndDrops(rest: string, right: string)
    requires AllSpace(right)
    ensures TrimEnd(rest + right) == TrimEnd(rest)
  {
    if right == "" {
      assert rest + right == rest;
    } else {
      var shorter := right[..|right| - 1];
      assert (rest + right)[..|rest + right| - 1] == rest + shorter;
      TrimEndDrops(rest, shorter);
    }
  }

  lemma {:induction false} TrimStartLeaves(s: string) returns (left: string)
    ensures s == left + TrimStart(s) && AllSpace(left)
    ensures TrimStart(s) != "" ==> !Whitespace(TrimStart(s)[0])
  {
    left := "";
    if s != "" && Whitespace(s[0]) {
      var more := TrimStartLeaves(s[1..]);
      left := [s[0]] + more;
    }
  }

  lemma {:induction false} TrimEndLeaves(s: string) returns (right: string)
    ensures s == TrimEnd(s) + right && AllSpace(right)
    ensures TrimEnd(s) != "" ==> !Whitespace(TrimEnd(s)[|TrimEnd(s)| - 1])
  {
    right := "";
    if s != "" && Whitespace(s[|s| - 1]) {
      var more := TrimEndLeaves(s[..|s| - 1]);
      right := more + [s[|s| - 1]];
    }
  }

  /** Trimming finds the one text that the white space surrounds. */
  lemma {:induction false} TrimIsCore(text: string, core: string)
    ensures Surrounded(text, core) <==> core == Trim(text)
  {
    hide Whitespace;
    if Surrounded(text, core) {
      var left, right :| Around(text, left, core, right);
      assert text == left + (core + right);
      TrimStartDrops(left, core + right);
      if core == "" {
        assert core + right == right && right + "" == right;
        TrimStartDrops(right, "");
      } else {
        assert TrimStart(core + right) == core + right;
        TrimEndDrops(core, right);
      }
    }
    var left := TrimStartLeaves(text);
    var right := TrimEndLeaves(TrimStart(text));
    var kept := Trim(text);
    assert text == left + (kept + right);
    assert kept != "" ==> kept[0] == TrimStart(text)[0];
    assert Around(text, left, kept, right);
  }

  // ---------- numbers ----------

  function Power(radix: nat, exponent: nat): nat {
    if exponent == 0 then 1 else radix * Power(radix, exponent - 1)
  }

  /** The sum of the digits, each at its place. */
  function PlaceSum(digits: seq<nat>, radix: nat): nat {
    if digits == [] then 0 else digits[0] * Power(radix, |digits| - 1) + PlaceSum(digits[1..], radix)
  }

  predicate DigitIs(c: char, digit: nat) {
    digit < 16 && (c == "0123456789abcdef"[digit] || c == "0123456789ABCDEF"[digit])
  }

  predicate Spells(s: string, digits: seq<nat>, radix: nat) {
    |s| == |digits| > 0 && forall i | 0 <= i < |s| :: digits[i] < radix && DigitIs(s[i], digits[i])
  }

  /** An optional sign and digits. */
  predicate SignedAs(s: string, sign: string, digits: seq<nat>, radix: nat, number: int) {
    && (sign == "" || sign == "+" || sign == "-") && sign <= s
    && Spells(s[|sign|..], digits, radix)
    && number == if sign == "-" then -(PlaceSum(digits, radix) as int) else PlaceSum(digits, radix)
  }

  ghost predicate Signed(s: string, radix: nat, number: int) {
    exists sign, digits :: SignedAs(s, sign, digits, radix, number)
  }

  /** Decimal, or hexadecimal after 0x or 0X. */
  ghost predicate Numeral(core: string, number: int) {
    || Signed(core, 10, number)
    || (("0x" <= core || "0X" <= core) && Signed(core[2..], 16, number))
  }

  /** The text stands for this number. */
  ghost predicate Denotes(text: string, number: int) {
    exists core :: Surrounded(text, core) && Numeral(core, number)
  }

  lemma {:induction false} PlaceSumSnoc(digits: seq<nat>, last: nat, radix: nat)
    ensures PlaceSum(digits + [last], radix) == PlaceSum(digits, radix) * radix + last
  {
    if digits == [] {
      assert [] + [last] == [last];
      assert PlaceSum([last], radix) == last * Power(radix, 0) + PlaceSum([], radix);
    } else {
      assert (digits + [last])[1..] == digits[1..] + [last];
      PlaceSumSnoc(digits[1..], last, radix);
      PlaceMoves(digits[0], Power(radix, |digits| - 1), PlaceSum(digits[1..], radix), radix);
    }
  }

  lemma {:induction false} PlaceMoves(digit: nat, power: nat, rest: nat, radix: nat)
    ensures digit * (radix * power) + rest * radix == (digit * power + rest) * radix
  {
  }

  lemma {:induction false} DigitMeans(c: char, radix: nat, digit: nat)
    requires radix == 10 || radix == 16
    ensures DigitValue(c, radix) == Some(digit) <==> digit < radix && DigitIs(c, digit)
  {
    var lower, upper := "0123456789abcdef", "0123456789ABCDEF";
    if digit < 16 {
      assert lower[digit] == if digit < 10 then ('0' as int + digit) as char else ('a' as int + digit - 10) as char;
      assert upper[digit] == if digit < 10 then ('0' as int + digit) as char else ('A' as int + digit - 10) as char;
    }
  }

  /** Reading digits one by one gives their positional sum. */
  lemma {:induction false} DigitsMean(s: string, radix: nat, number: nat)
    requires radix == 10 || radix == 16
    ensures DigitsValue(s, radix) == Some(number)
            <==> exists digits :: Spells(s, digits, radix) && PlaceSum(digits, radix) == number
  {
    if DigitsValue(s, radix) == Some(number) {
      var digits := ReadDigits(s, radix);
    }
    forall digits | Spells(s, digits, radix) ensures DigitsValue(s, radix) == Some(PlaceSum(digits, radix)) {
      SpelledIsRead(s, digits, radix);
    }
  }

  lemma {:induction false} ReadDigits(s: string, radix: nat) returns (digits: seq<nat>)
    requires (radix == 10 || radix == 16) && DigitsValue(s, radix).Some?
    ensures Spells(s, digits, radix) && Some(PlaceSum(digits, radix)) == DigitsValue(s, radix)
  {
    hide DigitIs, DigitValue;
    var last := DigitValue(s[|s| - 1], radix).value;
    DigitMeans(s[|s| - 1], radix, last);
    if |s| == 1 {
      digits := [last];
      PlaceSumSnoc([], last, radix);
      assert [] + [last] == digits;
    } else {
      var before := ReadDigits(s[..|s| - 1], radix);
      digits := before + [last];
      PlaceSumSnoc(before, last, radix);
    }
  }

  lemma {:induction false} SpelledIsRead(s: string, digits: seq<nat>, radix: nat)
    requires (radix == 10 || radix == 16) && Spells(s, digits, radix)
    ensures DigitsValue(s, radix) == Some(PlaceSum(digits, radix))
  {
    hide DigitIs, DigitValue;
    var before, last := digits[..|digits| - 1], digits[|digits| - 1];
    assert digits == before + [last];
    DigitMeans(s[|s| - 1], radix, last);
    PlaceSumSnoc(before, last, radix);
    if |s| > 1 {
      SpelledIsRead(s[..|s| - 1], before, radix);
    }
  }

  lemma {:induction false} DigitsHaveNoSign(s: string, digits: seq<nat>, radix: nat)
    requires Spells(s, digits, radix)
    ensures s[0] != '-' && s[0] != '+'
  {
    var lower, upper := "0123456789abcdef", "0123456789ABCDEF";
    assert forall i | 0 <= i < 16 :: lower[i] != '-' && lower[i] != '+' && upper[i] != '-' && upper[i] != '+';
    assert DigitIs(s[0], digits[0]);
  }

  lemma {:induction false} RadixMeans(s: string, radix: nat, number: i64)
    requires radix == 10 || radix == 16
    ensures ParseRadix(s, radix) == Some(number) <==> Signed(s, radix, number)
  {
    hide Spells, PlaceSum, DigitsValue;
    var signed := s != "" && (s[0] == '-' || s[0] == '+');
    var sign, rest := if signed then s[..1] else "", if signed then s[1..] else s;
    if ParseRadix(s, radix) == Some(number) {
      DigitsMean(rest, radix, DigitsValue(rest, radix).value);
      var digits :| Spells(rest, digits, radix) && PlaceSum(digits, radix) == DigitsValue(rest, radix).value;
      assert SignedAs(s, sign, digits, radix, number);
    }
    if Signed(s, radix, number) {
      var other, digits :| SignedAs(s, other, digits, radix, number);
      DigitsHaveNoSign(s[|other|..], digits, radix);
      assert other == sign;
      DigitsMean(rest, radix, PlaceSum(digits, radix));
    }
  }

  lemma {:induction false} DecimalIsNotHex(core: string, number: int)
    requires Signed(core, 10, number)
    ensures !("0x" <= core) && !("0X" <= core)
  {
    var sign, digits :| SignedAs(core, sign, digits, 10, number);
    if |core| >= 2 {
      if sign == "" {
        assert core[|sign|..] == core && DigitIs(core[1], digits[1]);
      } else {
        assert core[0] == sign[0];
      }
    }
  }

  /** Integers are read as what their text denotes, whenever that fits 64 bits. */
  lemma {:induction false} IntegerMeans(text: string, number: i64)
    ensures ParseInteger(text) == Some(number) <==> Denotes(text, number)
  {
    hide Trim, ParseRadix, Signed, Surrounded;
    var core := Trim(text);
    TrimIsCore(text, core);
    if Denotes(text, number) {
      var other :| Surrounded(text, other) && Numeral(other, number);
      TrimIsCore(text, other);
    }
    assert Denotes(text, number) <==> Numeral(core, number);
    RadixMeans(core, 10, number);
    if "0x" <= core || "0X" <= core {
      RadixMeans(core[2..], 16, number);
      if Signed(core, 10, number) {
        DecimalIsNotHex(core, number);
      }
    }
  }

  // ---------- values ----------

  /** Under a kind, the text stands for the value. */
  ghost predicate Means(kind: IniKind, text: string, value: Value) {
    && (kind.Flag? ==>
          (value == Boolean(true) && Surrounded(text, "1")) || (value == Boolean(false) && Surrounded(text, "0")))
    && (kind.Range? ==> value.Integer? && kind.min <= value.number <= kind.max && Denotes(text, value.number))
    && (kind.Text? ==> value == String(text))
    && (kind.Enum? ==> value.String? && value.text in kind.values && Denotes(text, kind.values[value.text]))
  }

  /** A text is accepted as a value exactly when it stands for it. */
  lemma {:induction false} AcceptedMeans(kind: IniKind, text: string, value: Value)
    requires Unambiguous(kind)
    ensures ParseIni(kind, text) == Some(value) <==> Means(kind, text, value)
  {
    hide Trim, ParseInteger, Denotes, Surrounded;
    TrimIsCore(text, "0");
    TrimIsCore(text, "1");
    if ParseInteger(text).Some? {
      IntegerMeans(text, ParseInteger(text).value);
    }
    if kind.Range? && value.Integer? {
      IntegerMeans(text, value.number);
    }
    if kind.Enum? && value.String? && value.text in kind.values {
      IntegerMeans(text, kind.values[value.text]);
    }
  }

  /** The number's decimal digits without leading zeros, after a minus sign if it is below zero. */
  predicate CanonicalAs(text: string, number: int, digits: seq<nat>) {
    && digits != [] && (|digits| == 1 || digits[0] != 0)
    && if number < 0 then "-" <= text && Spells(text[1..], digits, 10) && PlaceSum(digits, 10) == -number
       else Spells(text, digits, 10) && PlaceSum(digits, 10) == number
  }

  /** The text is the number's canonical decimal form. */
  ghost predicate Canonical(text: string, number: int) {
    exists digits :: CanonicalAs(text, number, digits)
  }

  /** Under a kind, the text shows the value. */
  ghost predicate Shows(kind: IniKind, value: Value, text: string) {
    && (kind.Flag? ==> (value == Boolean(true) && text == "1") || (value == Boolean(false) && text == "0"))
    && (kind.Range? ==> value.Integer? && kind.min <= value.number <= kind.max && Canonical(text, value.number))
    && (kind.Text? ==> value == String(text))
    && (kind.Enum? ==> value.String? && value.text in kind.values && Canonical(text, kind.values[value.text]))
  }

  lemma {:induction false} PlaceSumPositive(digits: seq<nat>)
    requires digits != [] && digits[0] != 0
    ensures PlaceSum(digits, 10) > 0
  {
    PowerPositive(|digits| - 1);
  }

  lemma {:induction false} PowerPositive(exponent: nat)
    ensures Power(10, exponent) > 0
  {
    if exponent > 0 {
      PowerPositive(exponent - 1);
    }
  }

  lemma {:induction false} DigitMatches(n: nat, c: char)
    requires n < 10
    ensures DigitIs(c, n) <==> c == Digit(n)
  {
    DigitMeans(c, 10, n);
  }

  lemma {:induction false} SpellsSnoc(s: string, digits: seq<nat>, n: nat)
    requires n < 10 && (s == "" ==> digits == []) && (s != "" ==> Spells(s, digits, 10))
    ensures Spells(s + [Digit(n)], digits + [n], 10)
  {
    hide DigitIs;
    DigitMatches(n, Digit(n));
  }

  lemma {:induction false} PrintedDigits(n: nat) returns (digits: seq<nat>)
    ensures Spells(Digits(n), digits, 10) && PlaceSum(digits, 10) == n
    ensures |digits| == 1 || digits[0] != 0
  {
    hide Spells, PlaceSum;
    if n < 10 {
      SpellsSnoc("", [], n);
      OneDigit(n);
      digits := [n];
      assert [] + [n] == digits && "" + [Digit(n)] == [Digit(n)];
    } else {
      var before := PrintedDigits(n / 10);
      SpellsSnoc(Digits(n / 10), before, n % 10);
      PlaceSumSnoc(before, n % 10, 10);
      digits := before + [n % 10];
      if |before| == 1 {
        OneDigit(before[0]);
        assert before == [before[0]];
      }
      SpellsSome(Digits(n / 10), before);
    }
  }

  lemma {:induction false} SpellsSome(s: string, digits: seq<nat>)
    requires Spells(s, digits, 10)
    ensures digits != []
  {
  }

  lemma {:induction false} NoDigits()
    ensures PlaceSum([], 10) == 0
  {
  }

  lemma {:induction false} OneDigit(n: nat)
    ensures PlaceSum([n], 10) == n
  {
    PlaceSumSnoc([], n, 10);
    assert [] + [n] == [n];
  }

  lemma {:induction false} LastPlace(before: nat, last: nat)
    requires last < 10
    ensures (before * 10 + last) / 10 == before && (before * 10 + last) % 10 == last
  {
  }

  lemma {:induction false} CanonicalIsPrinted(s: string, digits: seq<nat>)
    requires Spells(s, digits, 10) && (|digits| == 1 || digits[0] != 0)
    ensures Digits(PlaceSum(digits, 10)) == s
  {
    hide DigitIs, PlaceSum;
    var before, last := digits[..|digits| - 1], digits[|digits| - 1];
    var n := PlaceSum(digits, 10);
    assert digits == before + [last];
    PlaceSumSnoc(before, last, 10);
    DigitMatches(last, s[|s| - 1]);
    if |s| == 1 {
      assert before == [];
      NoDigits();
      assert s == [Digit(last)];
    } else {
      PlaceSumPositive(before);
      CanonicalIsPrinted(s[..|s| - 1], before);
      LastPlace(PlaceSum(before, 10), last);
      assert s == s[..|s| - 1] + [s[|s| - 1]];
    }
  }

  lemma {:induction false} PrintedMeans(number: i64, text: string)
    ensures PrintInteger(number) == text <==> Canonical(text, number)
  {
    hide Spells, PlaceSum, Digits;
    var size: int := number;
    if PrintInteger(number) == text {
      var digits := PrintedDigits(if size < 0 then -size else size);
      SpellsSome(Digits(if size < 0 then -size else size), digits);
      assert size < 0 ==> text[1..] == Digits(-size);
      assert CanonicalAs(text, number, digits);
    }
    if Canonical(text, number) {
      var digits :| CanonicalAs(text, number, digits);
      CanonicalIsPrinted(if size < 0 then text[1..] else text, digits);
      assert size < 0 ==> text == "-" + text[1..];
    }
  }

  /** A value is shown exactly by its one text. */
  lemma {:induction false} ShownMeans(kind: IniKind, value: Value, text: string)
    ensures ToIni(kind, value) == Some(text) <==> Shows(kind, value, text)
  {
    hide PrintInteger, Canonical;
    if kind.Range? && value.Integer? {
      PrintedMeans(value.number, text);
    }
    if kind.Enum? && value.String? && value.text in kind.values {
      PrintedMeans(kind.values[value.text], text);
    }
  }

  /** Values of a kind: exactly these have a text. */
  predicate OfKind(kind: IniKind, value: Value) {
    && (kind.Flag? ==> value.Boolean?)
    && (kind.Range? ==> value.Integer? && kind.min <= value.number <= kind.max)
    && (kind.Text? ==> value.String?)
    && (kind.Enum? ==> value.String? && value.text in kind.values)
  }

  // ---------- names ----------

  /** Equal, except that an ASCII letter may be of either case. */
  predicate EqualButCase(a: string, b: string) {
    && |a| == |b|
    && forall i | 0 <= i < |a| ::
         || a[i] == b[i]
         || ('a' <= a[i] <= 'z' && a[i] as int - 32 == b[i] as int)
         || ('a' <= b[i] <= 'z' && b[i] as int - 32 == a[i] as int)
  }

  lemma {:induction false} SameNameMeans(a: string, b: string)
    ensures SameName(a, b) <==> EqualButCase(a, b)
  {
    if SameName(a, b) {
      assert |Lower(a)| == |Lower(b)|;
      forall i | 0 <= i < |a| ensures LowerChar(a[i]) == LowerChar(b[i]) {
        assert Lower(a)[i] == Lower(b)[i];
      }
    }
    if EqualButCase(a, b) {
      assert Lower(a) == Lower(b);
    }
  }
}
