/** What a JSON text means: the grammar of sections 2 to 7 of RFC 8259, written out in ASCII codes,
    with the value of every text. Nothing here looks at the parser or the printer. */
module JsonText {
  import opened Bytes
  import opened JsonTree
  import opened Wrappers

  /** A character of a string as it is written, and the bytes it stands for. */
  datatype Char =
    | Plain(b: byte)
    | Short(letter: byte, stands: byte)
    | Long(digits: Text, bytes: Text)

  datatype Power = Power(letter: byte, sign: Text, digits: Text)

  /** How a value can be written, gaps included. */
  datatype Syntax =
    | NullWord
    | FalseWord
    | TrueWord
    | Numeral(minus: bool, whole: Text, fraction: Text, power: Option<Power>)
    | Quoted(chars: seq<Char>)
    | List(gap: Text, elements: seq<Element>)
    | Record(gap: Text, pairs: seq<Pair>)

  datatype Element = Element(before: Text, value: Syntax, after: Text)

  datatype Pair = Pair(before: Text, name: seq<Char>, afterName: Text, beforeValue: Text, value: Syntax, after: Text)

  // ---- the text ----------------------------------------------------------------------------

  function SpellChar(c: Char): Text {
    match c
    case Plain(b) => [b]
    case Short(letter, _) => [92, letter]
    case Long(digits, _) =>
      if |digits| <= 4 then [92, 117] + digits else [92, 117] + digits[..4] + ([92, 117] + digits[4..])
  }

  function SpellChars(chars: seq<Char>): Text {
    if chars == [] then [] else SpellChar(chars[0]) + SpellChars(chars[1..])
  }

  function SpellString(chars: seq<Char>): Text {
    [34] + SpellChars(chars) + [34]
  }

  function SpellPower(power: Option<Power>): Text {
    if power.None? then [] else [power.value.letter] + power.value.sign + power.value.digits
  }

  function SpellNumeral(minus: bool, whole: Text, fraction: Text, power: Option<Power>): Text {
    (if minus then [45] else []) + whole + (if fraction == [] then [] else [46] + fraction) + SpellPower(power)
  }

  function Spell(syn: Syntax): Text
    decreases syn, 0
  {
    match syn
    case NullWord => [110, 117, 108, 108]
    case FalseWord => [102, 97, 108, 115, 101]
    case TrueWord => [116, 114, 117, 101]
    case Numeral(minus, whole, fraction, power) => SpellNumeral(minus, whole, fraction, power)
    case Quoted(chars) => SpellString(chars)
    case List(gap, elements) => [91] + (if elements == [] then gap else SpellElements(elements)) + [93]
    case Record(gap, pairs) => [123] + (if pairs == [] then gap else SpellPairs(pairs)) + [125]
  }

  function SpellElements(elements: seq<Element>): Text
    decreases elements, 1
  {
    if elements == [] then []
    else
      var e := elements[0];
      e.before
      + (Spell(e.value) + (e.after + if |elements| == 1 then [] else [44] + SpellElements(elements[1..])))
  }

  function SpellPairs(pairs: seq<Pair>): Text
    decreases pairs, 1
  {
    if pairs == [] then []
    else
      var p := pairs[0];
      p.before
      + (SpellString(p.name)
         + (p.afterName
            + ([58]
               + (p.beforeValue
                  + (Spell(p.value) + (p.after + if |pairs| == 1 then [] else [44] + SpellPairs(pairs[1..])))))))
  }

  // ---- which texts are JSON --------------------------------------------------------------------

  /** Section 2: blank, tab, newline and carriage return may stand around a token. If the gap may
      be loose it holds any control characters but NUL. */
  predicate Gap(t: Text, loose: bool) {
    forall i :: 0 <= i < |t| ==> t[i] == 32 || t[i] == 9 || t[i] == 10 || t[i] == 13 || (loose && 0 < t[i] < 32)
  }

  predicate Numeric(t: Text) {
    forall i :: 0 <= i < |t| ==> 48 <= t[i] <= 57
  }

  /** Section 6: no leading zeros. */
  predicate ProperNumeral(whole: Text, fraction: Text, power: Option<Power>) {
    && whole != [] && Numeric(whole) && (whole[0] == 48 ==> |whole| == 1) && Numeric(fraction)
    && (power.Some? ==>
          && (power.value.letter == 101 || power.value.letter == 69)
          && (power.value.sign == [] || power.value.sign == [43] || power.value.sign == [45])
          && power.value.digits != [] && Numeric(power.value.digits))
  }

  predicate IsHexDigit(c: byte) {
    48 <= c <= 57 || 65 <= c <= 70 || 97 <= c <= 102
  }

  function HexDigitValue(c: byte): nat
    requires IsHexDigit(c)
  {
    if c <= 57 then c - 48 else if c <= 70 then 10 + (c - 65) else 10 + (c - 97)
  }

  /** The number that four hexadecimal digits, in either letter case, stand for. */
  function CodeUnit(t: Text): nat
    requires |t| == 4 && forall i :: 0 <= i < 4 ==> IsHexDigit(t[i])
  {
    4096 * HexDigitValue(t[0]) + 256 * HexDigitValue(t[1]) + 16 * HexDigitValue(t[2]) + HexDigitValue(t[3])
  }

  /** Section 3 of RFC 3629: the bytes that encode a code point. */
  predicate EncodedAs(u: int, b: Text) {
    match |b|
    case 1 => u == b[0] < 0x80
    case 2 =>
      && 0xC0 <= b[0] < 0xE0 && 0x80 <= b[1] < 0xC0
      && u == 64 * (b[0] as int - 0xC0) + (b[1] as int - 0x80) && 0x80 <= u
    case 3 =>
      && 0xE0 <= b[0] < 0xF0 && 0x80 <= b[1] < 0xC0 && 0x80 <= b[2] < 0xC0
      && u == 4096 * (b[0] as int - 0xE0) + 64 * (b[1] as int - 0x80) + (b[2] as int - 0x80) && 0x800 <= u
    case 4 =>
      && 0xF0 <= b[0] < 0xF8 && 0x80 <= b[1] < 0xC0 && 0x80 <= b[2] < 0xC0 && 0x80 <= b[3] < 0xC0
      && u == 262144 * (b[0] as int - 0xF0) + 4096 * (b[1] as int - 0x80) + 64 * (b[2] as int - 0x80)
              + (b[3] as int - 0x80)
      && 0x1_0000 <= u < 0x11_0000
    case _ => false
  }

  /** Section 7: a byte of an unescaped character, a short escape, or a code point as one code unit
      or as a surrogate pair. */
  predicate ProperChar(c: Char) {
    match c
    case Plain(b) => b >= 32 && b != 34 && b != 92
    case Short(letter, stands) =>
      || (stands == letter && (letter == 34 || letter == 92 || letter == 47))
      || (letter, stands) == (98, 8) || (letter, stands) == (102, 12) || (letter, stands) == (110, 10)
      || (letter, stands) == (114, 13) || (letter, stands) == (116, 9)
    case Long(digits, bytes) =>
      (forall i :: 0 <= i < |digits| ==> IsHexDigit(digits[i])) &&
      if |digits| == 4 then
        var u := CodeUnit(digits);
        !(0xD800 <= u < 0xE000) && EncodedAs(u, bytes)
      else
        && |digits| == 8
        && var high, low := CodeUnit(digits[..4]), CodeUnit(digits[4..]);
          0xD800 <= high < 0xDC00 <= low < 0xE000 &&
          EncodedAs(0x1_0000 + 1024 * (high - 0xD800) + (low - 0xDC00), bytes)
  }

  predicate ProperChars(chars: seq<Char>) {
    forall i :: 0 <= i < |chars| ==> ProperChar(chars[i])
  }

  predicate Proper(syn: Syntax, loose: bool)
    decreases syn, 0
  {
    match syn
    case Numeral(_, whole, fraction, power) => ProperNumeral(whole, fraction, power)
    case Quoted(chars) => ProperChars(chars)
    case List(gap, elements) => Gap(gap, loose) && ProperElements(elements, loose)
    case Record(gap, pairs) => Gap(gap, loose) && ProperPairs(pairs, loose)
    case _ => true
  }

  predicate ProperElements(elements: seq<Element>, loose: bool)
    decreases elements, 1
  {
    elements == [] ||
    (Gap(elements[0].before, loose) && Proper(elements[0].value, loose) && Gap(elements[0].after, loose)
     && ProperElements(elements[1..], loose))
  }

  predicate ProperPairs(pairs: seq<Pair>, loose: bool)
    decreases pairs, 1
  {
    pairs == [] ||
    var p := pairs[0];
    && Gap(p.before, loose) && ProperChars(p.name) && Gap(p.afterName, loose) && Gap(p.beforeValue, loose)
    && Proper(p.value, loose) && Gap(p.after, loose) && ProperPairs(pairs[1..], loose)
  }

  // ---- the value -----------------------------------------------------------------------------

  function Whole(digits: Text): int {
    if digits == [] then 0 else 10 * Whole(digits[..|digits| - 1]) + (digits[|digits| - 1] as int - 48)
  }

  /** The value of digits behind a decimal point. */
  function Fraction(digits: Text): real {
    if digits == [] then 0.0 else ((digits[0] as int - 48) as real + Fraction(digits[1..])) / 10.0
  }

  function TenTo(e: int): real
    decreases if e < 0 then -e else e
  {
    if e == 0 then 1.0 else if e > 0 then 10.0 * TenTo(e - 1) else TenTo(e + 1) / 10.0
  }

  function PowerOf(power: Option<Power>): int {
    if power.None? then 0
    else if power.value.sign == [45] then -Whole(power.value.digits)
    else Whole(power.value.digits)
  }

  function NumeralSize(whole: Text, fraction: Text, power: int): real {
    (Whole(whole) as real + Fraction(fraction)) * TenTo(power)
  }

  function NumeralValue(minus: bool, whole: Text, fraction: Text, power: Option<Power>): real {
    var size := NumeralSize(whole, fraction, PowerOf(power));
    if minus then -size else size
  }

  function CharBytes(c: Char): Text {
    match c
    case Plain(b) => [b]
    case Short(_, stands) => [stands]
    case Long(_, bytes) => bytes
  }

  function CharsBytes(chars: seq<Char>): Text {
    if chars == [] then [] else CharBytes(chars[0]) + CharsBytes(chars[1..])
  }

  function Value(syn: Syntax): Json
    decreases syn, 0
  {
    match syn
    case NullWord => Null
    case FalseWord => False
    case TrueWord => True
    case Numeral(minus, whole, fraction, power) => Number(NumeralValue(minus, whole, fraction, power))
    case Quoted(chars) => String(CharsBytes(chars))
    case List(_, elements) => Array(Items(elements))
    case Record(_, pairs) => Object(Members(pairs))
  }

  function Items(elements: seq<Element>): seq<Json>
    decreases elements, 1
  {
    if elements == [] then [] else [Value(elements[0].value)] + Items(elements[1..])
  }

  function Members(pairs: seq<Pair>): seq<Member>
    decreases pairs, 1
  {
    if pairs == [] then [] else [Member(CharsBytes(pairs[0].name), Value(pairs[0].value))] + Members(pairs[1..])
  }

  /** The text is a way to write the value. */
  ghost predicate Denotes(text: Text, v: Json) {
    exists syn :: Proper(syn, false) && Spell(syn) == text && Value(syn) == v
  }
}
