/** The INI view of a configuration value (config/src/service.rs: `to_ini`, `parse_ini`, `integer`). */
module IniValues {
  import opened Wrappers
  import opened TomlTables

  /** An enum's names stand for numbers; registration makes the numbers unique. */
  datatype IniKind = Flag | Range(min: i64, max: i64) | Text | Enum(values: map<string, i64>)

  predicate Unambiguous(kind: IniKind) {
    kind.Enum? ==> forall m, n | m in kind.values && n in kind.values && kind.values[m] == kind.values[n] :: m == n
  }

  // ---------- text ----------

  /** The Unicode White_Space property, which `trim` strips. */
  predicate Whitespace(c: char) {
    var code := c as int;
    || 0x9 <= code <= 0xd || code == 0x20 || code == 0x85 || code == 0xa0 || code == 0x1680
    || 0x2000 <= code <= 0x200a || code == 0x2028 || code == 0x2029 || code == 0x202f || code == 0x205f
       || code == 0x3000
  }

  function TrimStart(s: string): string {
    if s != "" && Whitespace(s[0]) then TrimStart(s[1..]) else s
  }

  function TrimEnd(s: string): string {
    if s != "" && Whitespace(s[|s| - 1]) then TrimEnd(s[..|s| - 1]) else s
  }

  function Trim(s: string): string {
    TrimEnd(TrimStart(s))
  }

  lemma {:induction false} NothingToTrim(s: string)
    requires s != "" ==> !Whitespace(s[0]) && !Whitespace(s[|s| - 1])
    ensures Trim(s) == s
  {
  }

  function LowerChar(c: char): char {
    if 'A' <= c <= 'Z' then (c as int + 32) as char else c
  }

  /** ASCII lower case; other characters stand for themselves. */
  function Lower(s: string): string {
    seq(|s|, i requires 0 <= i < |s| => LowerChar(s[i]))
  }

  predicate SameName(a: string, b: string) {
    Lower(a) == Lower(b)
  }

  // ---------- integers ----------

  function DigitValue(c: char, radix: nat): Option<nat> {
    var digit :=
      if '0' <= c <= '9' then c as int - '0' as int
      else if 'a' <= c <= 'z' then c as int - 'a' as int + 10
      else if 'A' <= c <= 'Z' then c as int - 'A' as int + 10
      else radix;
    if digit < radix then Some(digit) else None
  }

  /** The unbounded value of a nonempty run of digits. */
  function DigitsValue(s: string, radix: nat): Option<nat> {
    if s == "" then None
    else
      match DigitValue(s[|s| - 1], radix)
      case None => None
      case Some(last) =>
        if |s| == 1 then Some(last)
        else
          match DigitsValue(s[..|s| - 1], radix)
          case None => None
          case Some(before) => Some(before * radix + last)
  }

  /** An optional sign, then digits, within 64 bits. */
  function ParseRadix(s: string, radix: nat): Option<i64> {
    var signed := s != "" && (s[0] == '-' || s[0] == '+');
    match DigitsValue(if signed then s[1..] else s, radix)
    case None => None
    case Some(magnitude) =>
      var size: int := magnitude;
      var number := if signed && s[0] == '-' then -size else size;
      if -0x8000_0000_0000_0000 <= number < 0x8000_0000_0000_0000 then Some(number) else None
  }

  function ParseInteger(text: string): Option<i64> {
    var value := Trim(text);
    if |value| >= 2 && value[0] == '0' && (value[1] == 'x' || value[1] == 'X') then ParseRadix(value[2..], 16)
    else ParseRadix(value, 10)
  }

  function Digit(n: nat): char
    requires n < 10
  {
    ('0' as int + n) as char
  }

  function Digits(n: nat): (s: string)
    ensures s != ""
    ensures forall i | 0 <= i < |s| :: '0' <= s[i] <= '9'
  {
    if n < 10 then [Digit(n)] else Digits(n / 10) + [Digit(n % 10)]
  }

  function PrintInteger(n: i64): string {
    var size: int := n;
    if n < 0 then "-" + Digits(-size) else Digits(n)
  }

  lemma {:induction false} DigitsRoundTrip(n: nat)
    ensures DigitsValue(Digits(n), 10) == Some(n)
  {
    var s := Digits(n);
    if n >= 10 {
      DigitsRoundTrip(n / 10);
      assert s[..|s| - 1] == Digits(n / 10);
    }
  }

  lemma {:induction false} IntegerRoundTrip(n: i64)
    ensures Trim(PrintInteger(n)) == PrintInteger(n)
    ensures ParseInteger(PrintInteger(n)) == Some(n)
  {
    hide Digits, DigitsValue, Trim, Whitespace;
    var number: int := n;
    var size := if number < 0 then -number else number;
    var digits, s := Digits(size), PrintInteger(n);
    DigitsRoundTrip(size);
    assert forall i | 0 <= i < |s| :: s[i] == '-' || '0' <= s[i] <= '9';
    DecimalIsVisible(s[0]);
    DecimalIsVisible(s[|s| - 1]);
    NothingToTrim(s);
    if number < 0 {
      assert s[1..] == digits;
    }
  }

  lemma {:induction false} DecimalIsVisible(c: char)
    requires c == '-' || '0' <= c <= '9'
    ensures !Whitespace(c)
  {
  }

  // ---------- values ----------

  function ToIni(kind: IniKind, value: Value): Option<string> {
    match kind
    case Flag => if value.Boolean? then Some(if value.flag then "1" else "0") else None
    case Range(min, max) =>
      if value.Integer? && min <= value.number <= max then Some(PrintInteger(value.number)) else None
    case Text => if value.String? then Some(value.text) else None
    case Enum(values) => if value.String? && value.text in values then Some(PrintInteger(values[value.text])) else None
  }

  function ParseIni(kind: IniKind, text: string): Option<Value>
    requires Unambiguous(kind)
  {
    match kind
    case Flag =>
      if Trim(text) == "0" then Some(Boolean(false)) else if Trim(text) == "1" then Some(Boolean(true)) else None
    case Range(min, max) =>
      (match ParseInteger(text)
       case None => None
       case Some(number) => if min <= number <= max then Some(Integer(number)) else None)
    case Text => Some(String(text))
    case Enum(values) =>
      match ParseInteger(text)
      case None => None
      case Some(number) =>
        if name :| name in values && values[name] == number then Some(String(name)) else None
  }

  /** Whatever the view shows is read back as the same value. */
  lemma {:induction false} ShownIsReadBack(kind: IniKind, value: Value)
    requires Unambiguous(kind) && ToIni(kind, value).Some?
    ensures ParseIni(kind, ToIni(kind, value).value) == Some(value)
  {
    match kind {
      case Flag =>
        NothingToTrim(ToIni(kind, value).value);
      case Range(_, _) =>
        IntegerRoundTrip(value.number);
      case Text =>
      case Enum(values) =>
        IntegerRoundTrip(values[value.text]);
    }
  }

  /** Whatever text is accepted has a canonical form, which is accepted as the same value. */
  lemma {:induction false} AcceptedIsShown(kind: IniKind, text: string)
    requires Unambiguous(kind) && ParseIni(kind, text).Some?
    ensures ToIni(kind, ParseIni(kind, text).value).Some?
    ensures ParseIni(kind, ToIni(kind, ParseIni(kind, text).value).value) == ParseIni(kind, text)
  {
    ShownIsReadBack(kind, ParseIni(kind, text).value);
  }
}
