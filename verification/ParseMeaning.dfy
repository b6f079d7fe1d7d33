/** The parser reads every JSON text as what it means. */
module ParseMeaning {
  import opened Bytes
  import opened Decimal
  import opened JsonGrammar
  import opened JsonText
  import opened JsonTree
  import opened Wrappers

  // ---- numbers -------------------------------------------------------------------------------

  lemma {:induction false} NatIsWhole(digits: Text)
    requires Numeric(digits)
    ensures AllDigits(digits) && NatValue(digits) == Whole(digits)
  {
    if digits != [] {
      NatIsWhole(digits[..|digits| - 1]);
    }
  }

  lemma {:induction false} TenToShift(e: int, n: nat)
    ensures TenTo(e - n) * Pow10(n) as real == TenTo(e)
    decreases n
  {
    if n > 0 {
      TenToShift(e - 1, n - 1);
      var p, q := TenTo(e - n), Pow10(n - 1) as real;
      assert Pow10(n) as real == 10.0 * q;
      assert p * (10.0 * q) == 10.0 * (p * q);
    }
  }

  lemma ScaleIsTenTo(e: int)
    ensures Scale(e) == TenTo(e)
  {
    if e >= 0 {
      TenToShift(e, e);
    } else {
      TenToShift(0, -e);
    }
  }

  lemma {:induction false} MantissaValue(whole: Text, fraction: Text)
    requires AllDigits(whole) && AllDigits(fraction)
    ensures NatValue(whole + fraction) as real ==
            (NatValue(whole) as real + Fraction(fraction)) * Pow10(|fraction|) as real
    decreases |fraction|
  {
    hide NatValue, Fraction, Pow10;
    if fraction == [] {
      assert whole + fraction == whole;
      EmptyFraction();
    } else {
      var more := whole + [fraction[0]];
      MantissaValue(more, fraction[1..]);
      assert whole + fraction == more + fraction[1..];
      DigitMoves(whole, fraction);
    }
  }

  lemma EmptyFraction()
    ensures Fraction([]) == 0.0 && Pow10(0) == 1
  {
  }

  /** A digit in front of the point or behind it. */
  lemma DigitMoves(whole: Text, fraction: Text)
    requires AllDigits(whole) && AllDigits(fraction) && fraction != []
    ensures AllDigits(whole + [fraction[0]])
    ensures (NatValue(whole + [fraction[0]]) as real + Fraction(fraction[1..])) * Pow10(|fraction| - 1) as real ==
            (NatValue(whole) as real + Fraction(fraction)) * Pow10(|fraction|) as real
  {
    hide NatValue, Fraction, Pow10;
    DigitParts(whole, fraction);
    TenFold(NatValue(whole) as real, (fraction[0] as int - 48) as real, Fraction(fraction[1..]),
      Pow10(|fraction| - 1) as real, NatValue(whole + [fraction[0]]) as real, Fraction(fraction),
      Pow10(|fraction|) as real);
  }

  lemma DigitParts(whole: Text, fraction: Text)
    requires AllDigits(whole) && AllDigits(fraction) && fraction != []
    ensures
      var d := fraction[0] as int - 48;
      && NatValue(whole + [fraction[0]]) == 10 * NatValue(whole) + d
      && Fraction(fraction) == (d as real + Fraction(fraction[1..])) / 10.0
      && Pow10(|fraction|) == 10 * Pow10(|fraction| - 1)
  {
    assert (whole + [fraction[0]])[..|whole|] == whole;
  }

  lemma TenFold(w: real, d: real, f: real, p: real, more: real, less: real, q: real)
    requires more == 10.0 * w + d && less == (d + f) / 10.0 && q == 10.0 * p
    ensures (more + f) * p == (w + less) * q
  {
    var x := w + less;
    assert more + f == x * 10.0;
    assert x * 10.0 * p == x * (10.0 * p);
  }

  lemma ExponentReads(s: Text, m: nat, power: Option<Power>)
    requires m <= |s| && s[m..] == SpellPower(power) && ProperNumeral([48], [], power)
    ensures Exponent(s, m) == (|s| - m, PowerOf(power))
  {
    hide DigitRun, NatValue, Whole;
    if power.Some? {
      var sign, digits := power.value.sign, power.value.digits;
      assert s[m..][0] == s[m];
      assert s[m + 1..] == s[m..][1..] == sign + digits;
      assert s[m + 1] == s[m + 1..][0];
      assert s[m + 1 + |sign|..] == s[m + 1..][|sign|..] == digits;
      DigitRunExact(digits, []);
      NatIsWhole(digits);
      assert digits + [] == digits && digits[..|digits|] == digits;
    } else {
      assert |s[m..]| == 0;
    }
  }

  /** The digits in front of the point, the point and what is behind it, and the power. */
  lemma NumeralParts(whole: Text, middle: Text, power: Text, u: Text)
    requires u == whole + middle + power
    ensures u[..|whole|] == whole && u[|whole|..] == middle + power && u[|whole| + |middle|..] == power
    ensures middle != [] ==> u[|whole|] == middle[0] && u[|whole| + 1..] == middle[1..] + power
  {
  }

  function Middle(fraction: Text): Text {
    if fraction == [] then [] else [46] + fraction
  }

  /** Where strtod finds the parts of a numeral that starts behind its sign. */
  lemma NumeralRuns(whole: Text, fraction: Text, power: Option<Power>, u: Text)
    requires ProperNumeral(whole, fraction, power) && u == whole + Middle(fraction) + SpellPower(power)
    ensures AllDigits(whole) && AllDigits(fraction)
    ensures DigitRun(u) == |whole| && u[..|whole|] == whole
    ensures |whole| < |u| && u[|whole|] == POINT <==> fraction != []
    ensures fraction != [] ==> DigitRun(u[|whole| + 1..]) == |fraction| && u[|whole| + 1..][..|fraction|] == fraction
  {
    hide DigitRun, SpellPower;
    var p := SpellPower(power);
    NumeralParts(whole, Middle(fraction), p, u);
    PowerHead(power);
    var rest := Middle(fraction) + p;
    assert u == whole + rest;
    DigitRunExact(whole, rest);
    assert |whole| < |u| ==> u[|whole|] == rest[0];
    if fraction != [] {
      assert Middle(fraction)[1..] == fraction;
      DigitRunExact(fraction, p);
    }
  }

  lemma UnsignedReads(whole: Text, fraction: Text, power: Option<Power>, u: Text)
    requires ProperNumeral(whole, fraction, power) && u == whole + Middle(fraction) + SpellPower(power)
    ensures Unsigned(u) == Scanned(|u|, NumeralSize(whole, fraction, PowerOf(power)))
  {
    hide ProperNumeral, SpellPower, NatValue, DigitRun, Exponent, Magnitude, PowerOf, NumeralSize;
    NumeralRuns(whole, fraction, power, u);
    NumeralParts(whole, Middle(fraction), SpellPower(power), u);
    FirstDigit(whole, fraction, power);
    ExponentReads(u, |whole| + |Middle(fraction)|, power);
    NatIsWhole(whole);
    assert whole + [] == whole;
    MagnitudeMeans(whole, fraction, PowerOf(power));
  }

  lemma NumeralSplit(minus: bool, whole: Text, fraction: Text, power: Option<Power>)
    ensures SpellNumeral(minus, whole, fraction, power) ==
            (if minus then [MINUS] else []) + (whole + Middle(fraction) + SpellPower(power))
  {
    hide SpellPower;
    var head := (if minus then [MINUS] else []) + whole;
    assert head + Middle(fraction) + SpellPower(power) == head + (Middle(fraction) + SpellPower(power));
  }

  /** strtod reads every JSON number to its end, and as the number it is. */
  lemma StrtodReads(minus: bool, whole: Text, fraction: Text, power: Option<Power>)
    requires ProperNumeral(whole, fraction, power)
    ensures
      var s := SpellNumeral(minus, whole, fraction, power);
      Strtod(s) == Scanned(|s|, NumeralValue(minus, whole, fraction, power))
  {
    hide ProperNumeral, SpellNumeral, SpellPower, Unsigned, PowerOf, NumeralSize;
    var s := SpellNumeral(minus, whole, fraction, power);
    var u := whole + Middle(fraction) + SpellPower(power);
    NumeralSplit(minus, whole, fraction, power);
    UnsignedReads(whole, fraction, power, u);
    FirstDigit(whole, fraction, power);
    assert u[0] == whole[0];
    if minus {
      assert s[1..] == u;
    } else {
      assert s[0..] == s == u;
    }
  }

  lemma FirstDigit(whole: Text, fraction: Text, power: Option<Power>)
    requires ProperNumeral(whole, fraction, power)
    ensures whole != [] && whole[0] != PLUS && whole[0] != MINUS
    ensures ProperNumeral([48], [], power) && Numeric(whole)
  {
  }

  lemma PowerHead(power: Option<Power>)
    requires ProperNumeral([48], [], power)
    ensures SpellPower(power) == [] || SpellPower(power)[0] == 101 || SpellPower(power)[0] == 69
  {
  }

  lemma MagnitudeMeans(whole: Text, fraction: Text, e: int)
    requires AllDigits(whole) && AllDigits(fraction) && NatValue(whole) == Whole(whole)
    ensures Magnitude(whole + fraction, e - |fraction|) == NumeralSize(whole, fraction, e)
  {
    hide NatValue, Whole, Fraction, TenTo, Scale, Pow10;
    MantissaValue(whole, fraction);
    ScaleIsTenTo(e - |fraction|);
    TenToShift(e, |fraction|);
    var x, p, t := Whole(whole) as real + Fraction(fraction), Pow10(|fraction|) as real, TenTo(e - |fraction|);
    assert x * p * t == x * (t * p);
  }

  lemma NumberByteHead(w: Text, rest: Text, limit: nat)
    requires w != [] && IsNumberByte(w[0]) && limit > 0
    ensures NumberRun(w + rest, limit) == 1 + NumberRun(w[1..] + rest, limit - 1)
  {
    assert (w + rest)[1..] == w[1..] + rest;
  }

  lemma {:induction false} NumberRunExact(s: Text, rest: Text, limit: nat)
    requires forall i :: 0 <= i < |s| ==> IsNumberByte(s[i])
    requires |s| <= limit
    requires rest != [] && !IsNumberByte(rest[0])
    ensures NumberRun(s + rest, limit) == |s|
  {
    hide NumberRun;
    if s == [] {
      assert s + rest == rest;
    } else {
      NumberRunExact(s[1..], rest, limit - 1);
      NumberByteHead(s, rest, limit);
    }
  }

  lemma NumeralBytes(minus: bool, whole: Text, fraction: Text, power: Option<Power>)
    requires ProperNumeral(whole, fraction, power)
    ensures
      var s := SpellNumeral(minus, whole, fraction, power);
      s != [] && (s[0] == MINUS || IsDigit(s[0])) && forall i :: 0 <= i < |s| ==> IsNumberByte(s[i])
  {
    hide SpellNumeral, SpellPower;
    NumeralSplit(minus, whole, fraction, power);
    PowerBytes(power);
    FirstDigit(whole, fraction, power);
  }

  lemma PowerBytes(power: Option<Power>)
    requires ProperNumeral([48], [], power)
    ensures var s := SpellPower(power); forall i :: 0 <= i < |s| ==> IsNumberByte(s[i])
  {
  }

  /** A JSON number of at most 63 bytes, before a byte that cannot belong to it. */
  lemma NumberParses(minus: bool, whole: Text, fraction: Text, power: Option<Power>, rest: Text)
    requires ProperNumeral(whole, fraction, power) && |SpellNumeral(minus, whole, fraction, power)| <= NUMBER_CAPACITY
    requires Boundary(rest)
    ensures ParseNumber(SpellNumeral(minus, whole, fraction, power) + rest) ==
            Ok(NumeralValue(minus, whole, fraction, power), rest)
  {
    hide SpellNumeral, NumeralValue, ProperNumeral, NumberRun, Strtod;
    var s := SpellNumeral(minus, whole, fraction, power);
    NumeralBytes(minus, whole, fraction, power);
    NumberRunExact(s, rest, NUMBER_CAPACITY);
    assert (s + rest)[..|s|] == s;
    StrtodReads(minus, whole, fraction, power);
    assert (s + rest)[|s|..] == rest;
  }

  /** What may follow a value: anything a numeral cannot run into. */
  predicate Boundary(rest: Text) {
    rest != [] && !IsNumberByte(rest[0])
  }

  // ---- strings -----------------------------------------------------------------------------------

  lemma HexAgrees(c: byte)
    ensures HexValue(c) == if IsHexDigit(c) then Some(HexDigitValue(c)) else None
  {
  }

  lemma UnitAgrees(t: Text, s: Text)
    requires |t| == 4 && |s| >= 4 && s[..4] == t && forall i :: 0 <= i < 4 ==> IsHexDigit(t[i])
    ensures Hex4(s) == CodeUnit(t)
  {
    hide HexValue, HexDigitValue, IsHexDigit;
    forall i | 0 <= i < 4 ensures s[i] == t[i] && HexValue(s[i]) == Some(HexDigitValue(t[i])) {
      assert s[..4][i] == s[i];
      HexAgrees(t[i]);
    }
  }

  lemma ThreeBytes(u: int, x: int, y: int, z: int)
    requires 0 <= y < 64 && 0 <= z < 64 && u == 4096 * x + 64 * y + z
    ensures u / 0x1000 == x && u / 0x40 % 0x40 == y && u % 0x40 == z
  {
  }

  lemma FourBytes(u: int, w: int, x: int, y: int, z: int)
    requires 0 <= x < 64 && 0 <= y < 64 && 0 <= z < 64 && u == 262144 * w + 4096 * x + 64 * y + z
    ensures u / 0x40000 == w && u / 0x1000 % 0x40 == x && u / 0x40 % 0x40 == y && u % 0x40 == z
  {
    ThreeBytes(u, 64 * w + x, y, z);
  }

  /** Whatever bytes encode a code point by the table of RFC 3629 are the program's. */
  lemma EncodingAgrees(u: nat, b: Text)
    requires EncodedAs(u, b)
    ensures u < 0x110000 && Utf8(u) == b
  {
    if |b| == 2 {
    } else if |b| == 3 {
      ThreeBytes(u, b[0] - 0xE0, b[1] - 0x80, b[2] - 0x80);
    } else if |b| == 4 {
      FourBytes(u, b[0] - 0xF0, b[1] - 0x80, b[2] - 0x80, b[3] - 0x80);
    }
  }

  lemma UnitScans(digits: Text, t: Text)
    requires forall i :: 0 <= i < |digits| ==> IsHexDigit(digits[i])
    ensures ClosingQuote([92, 117] + digits + t) ==
            (match ClosingQuote(t) case None => None case Some(n) => Some(n + 2 + |digits|))
  {
    hide ClosingQuote;
    var s := [92, 117] + digits + t;
    EscapePasses(s);
    assert s[2..] == digits + t;
    PlainRunPasses(digits, t);
  }

  lemma CharScans(c: Char, t: Text)
    requires ProperChar(c)
    ensures ClosingQuote(SpellChar(c) + t) ==
            (match ClosingQuote(t) case None => None case Some(n) => Some(n + |SpellChar(c)|))
  {
    hide ClosingQuote, CodeUnit, EncodedAs, IsHexDigit;
    match c
    case Plain(b) =>
      PlainPasses([b] + t);
      assert ([b] + t)[1..] == t;
    case Short(letter, _) =>
      EscapePasses([92, letter] + t);
      assert ([92, letter] + t)[2..] == t;
    case Long(digits, bytes) =>
      if |digits| == 4 {
        UnitScans(digits, t);
      } else {
        PairScans(digits, bytes, t);
      }
  }

  lemma PairScans(digits: Text, bytes: Text, t: Text)
    requires ProperChar(Long(digits, bytes)) && |digits| == 8
    ensures ClosingQuote(SpellChar(Long(digits, bytes)) + t) ==
            (match ClosingQuote(t) case None => None case Some(n) => Some(n + 12))
  {
    hide ClosingQuote, CodeUnit, EncodedAs, IsHexDigit;
    var second := [92, 117] + digits[4..];
    UnitScans(digits[4..], t);
    UnitScans(digits[..4], second + t);
    assert SpellChar(Long(digits, bytes)) + t == [92, 117] + digits[..4] + (second + t);
  }

  lemma OneUnit(digits: Text, bytes: Text, t: Text, n: int)
    requires ProperChar(Long(digits, bytes)) && |digits| == 4 && 6 <= n < 6 + |t|
    ensures DecodeStep([92, 117] + digits + t, n) == Some((6, bytes))
  {
    hide IsHexDigit, HexDigitValue, Hex4, Utf8, EncodedAs;
    var s := [92, 117] + digits + t;
    assert s[2..][..4] == digits;
    UnitAgrees(digits, s[2..]);
    EncodingAgrees(CodeUnit(digits), bytes);
  }

  lemma TwoUnits(digits: Text, bytes: Text, t: Text, n: int)
    requires ProperChar(Long(digits, bytes)) && |digits| == 8 && 12 <= n < 12 + |t|
    ensures DecodeStep([92, 117] + digits[..4] + ([92, 117] + digits[4..]) + t, n) == Some((12, bytes))
  {
    hide IsHexDigit, HexDigitValue, Hex4, Utf8, EncodedAs, CodeUnit;
    var s := [92, 117] + digits[..4] + ([92, 117] + digits[4..]) + t;
    assert s[2..][..4] == digits[..4] && s[8..][..4] == digits[4..];
    UnitAgrees(digits[..4], s[2..]);
    UnitAgrees(digits[4..], s[8..]);
    var high, low := CodeUnit(digits[..4]), CodeUnit(digits[4..]);
    assert high % 0x400 == high - 0xD800 && low % 0x400 == low - 0xDC00;
    EncodingAgrees(0x1_0000 + 1024 * (high - 0xD800) + (low - 0xDC00), bytes);
    assert s[6] == 92 && s[7] == 117 && s[0] == 92 && s[1] == 117;
  }

  lemma CharDecodes(c: Char, t: Text, n: int)
    requires ProperChar(c) && |SpellChar(c)| <= n < |SpellChar(c)| + |t|
    ensures DecodeStep(SpellChar(c) + t, n) == Some((|SpellChar(c)|, CharBytes(c)))
  {
    match c
    case Long(digits, bytes) =>
      if |digits| == 4 {
        OneUnit(digits, bytes, t, n);
      } else {
        TwoUnits(digits, bytes, t, n);
      }
    case _ =>
  }

  lemma {:induction false} CharsScan(chars: seq<Char>, t: Text)
    requires ProperChars(chars) && Head(t, QUOTE)
    ensures ClosingQuote(SpellChars(chars) + t) == Some(|SpellChars(chars)|)
  {
    hide ClosingQuote, ProperChar, SpellChar;
    if chars == [] {
      assert SpellChars(chars) + t == t;
      QuoteCloses(t);
    } else {
      CharsScan(chars[1..], t);
      CharScans(chars[0], SpellChars(chars[1..]) + t);
      assert SpellChars(chars) + t == SpellChar(chars[0]) + (SpellChars(chars[1..]) + t);
    }
  }

  lemma QuoteCloses(t: Text)
    requires Head(t, QUOTE)
    ensures ClosingQuote(t) == Some(0)
  {
  }

  lemma {:induction false} CharsDecode(chars: seq<Char>, t: Text)
    requires ProperChars(chars) && t != []
    ensures Decode(SpellChars(chars) + t, |SpellChars(chars)|) == Some(CharsBytes(chars))
  {
    hide DecodeStep, ProperChar, SpellChar, CharBytes;
    if chars != [] {
      var c, u := chars[0], SpellChars(chars[1..]) + t;
      assert SpellChars(chars) + t == SpellChar(c) + u;
      assert (SpellChar(c) + u)[|SpellChar(c)|..] == u;
      CharDecodes(c, u, |SpellChars(chars)|);
      CharsDecode(chars[1..], t);
    }
  }

  /** A JSON string without NUL parses to the bytes its characters stand for, whichever way each of
      them is written. */
  lemma StringParses(chars: seq<Char>, rest: Text)
    requires ProperChars(chars) && NulFree(CharsBytes(chars))
    ensures ParseString(SpellString(chars) + rest) == Ok(CharsBytes(chars), rest)
  {
    hide ClosingQuote, Decode, ProperChars, SpellChars, CharsBytes;
    var t := [QUOTE] + rest;
    var s := SpellString(chars) + rest;
    assert s[1..] == SpellChars(chars) + t;
    CharsScan(chars, t);
    CharsDecode(chars, t);
    CStringIdentity(CharsBytes(chars));
    assert s[|SpellChars(chars)| + 2..] == rest;
  }

  // ---- gaps and first bytes --------------------------------------------------------------------

  lemma {:induction false} SkipGap(w: Text, s: Text)
    requires Gap(w, true) && s != []
    ensures Skip(w + s) == Skip(s)
  {
    if w == [] {
      assert w + s == s;
    } else {
      assert (w + s)[1..] == w[1..] + s;
      SkipGap(w[1..], s);
    }
  }

  lemma LooseGap(w: Text, loose: bool)
    requires Gap(w, loose)
    ensures Gap(w, true)
  {
  }

  /** A token: its first byte is no blank. */
  predicate Token(s: Text) {
    s != [] && s[0] > 32
  }

  lemma SkipTo(w: Text, s: Text, loose: bool)
    requires Gap(w, loose) && Token(s)
    ensures Skip(w + s) == s
  {
    LooseGap(w, loose);
    SkipGap(w, s);
  }

  lemma BoundaryBehind(w: Text, s: Text, loose: bool)
    requires Gap(w, loose) && Boundary(s)
    ensures Boundary(w + s)
  {
    assert w == [] ==> w + s == s;
  }

  lemma SpellHead(syn: Syntax, loose: bool)
    requires Proper(syn, loose)
    ensures Token(Spell(syn)) && Spell(syn)[0] != CLOSE_BRACKET
  {
    match syn
    case Numeral(minus, whole, fraction, power) => NumeralBytes(minus, whole, fraction, power);
    case _ =>
  }

  /** A text that starts with none of n, f, t matches none of the three literals. */
  lemma NoLiteral(s: Text)
    requires s != [] && s[0] != 110 && s[0] != 102 && s[0] != 116
    ensures !StartsWith(s, NULL_TEXT) && !StartsWith(s, FALSE_TEXT) && !StartsWith(s, TRUE_TEXT)
  {
    if |s| >= 4 { assert s[..4][0] == s[0]; }
    if |s| >= 5 { assert s[..5][0] == s[0]; }
  }

  /** What parsing an array comes to once its bracket is read. */
  lemma ParseArrayBody(body: Text, depth: nat)
    ensures ParseValue([OPEN_BRACKET] + body, depth) ==
            if depth >= NESTING_LIMIT then Fail
            else if Head(Skip(body), CLOSE_BRACKET) then Ok(Array([]), Skip(body)[1..])
            else match ParseItems(Skip(body), depth + 1) case Fail => Fail
              case Ok(items, rest) => Ok(Array(items), rest)
  {
    NoLiteral([OPEN_BRACKET] + body);
    assert ([OPEN_BRACKET] + body)[1..] == body;
  }

  /** What parsing an object comes to once its brace is read. */
  lemma ParseObjectBody(body: Text, depth: nat)
    ensures ParseValue([OPEN_BRACE] + body, depth) ==
            if depth >= NESTING_LIMIT then Fail
            else if Head(Skip(body), CLOSE_BRACE) then Ok(Object([]), Skip(body)[1..])
            else match ParseMembers(Skip(body), depth + 1) case Fail => Fail
              case Ok(members, rest) => Ok(Object(members), rest)
  {
    NoLiteral([OPEN_BRACE] + body);
    assert ([OPEN_BRACE] + body)[1..] == body;
  }

  // ---- values -------------------------------------------------------------------------------------

  /** No string holds NUL and no number is longer than the parser's copy of it. */
  predicate Fits(syn: Syntax)
    decreases syn, 0
  {
    match syn
    case Numeral(minus, whole, fraction, power) => |SpellNumeral(minus, whole, fraction, power)| <= 63
    case Quoted(chars) => NulFree(CharsBytes(chars))
    case List(_, elements) => FitElements(elements)
    case Record(_, pairs) => FitPairs(pairs)
    case _ => true
  }

  predicate FitElements(elements: seq<Element>)
    decreases elements, 1
  {
    elements == [] || (Fits(elements[0].value) && FitElements(elements[1..]))
  }

  predicate FitPairs(pairs: seq<Pair>)
    decreases pairs, 1
  {
    pairs == [] || (NulFree(CharsBytes(pairs[0].name)) && Fits(pairs[0].value) && FitPairs(pairs[1..]))
  }

  /** The parser's answer on the spelling of a value: the value when it is not nested too deeply,
      and failure otherwise. */
  predicate Read(v: Json, s: Text, depth: nat, rest: Text) {
    ParseValue(s, depth) == if depth + Height(v) <= NESTING_LIMIT then Ok(v, rest) else Fail
  }

  predicate ItemsRead(items: seq<Json>, s: Text, depth: nat, rest: Text) {
    ParseItems(s, depth) == if depth + HeightOfItems(items) <= NESTING_LIMIT then Ok(items, rest) else Fail
  }

  predicate MembersRead(members: seq<Member>, s: Text, depth: nat, rest: Text) {
    ParseMembers(s, depth) == if depth + HeightOfMembers(members) <= NESTING_LIMIT then Ok(members, rest) else Fail
  }

  lemma ScalarParses(syn: Syntax, loose: bool, depth: nat, rest: Text)
    requires Proper(syn, loose) && Fits(syn) && !syn.List? && !syn.Record? && Boundary(rest)
    ensures ParseValue(Spell(syn) + rest, depth) == Ok(Value(syn), rest)
  {
    hide ParseString, ParseNumber, ParseItems, ParseMembers, SpellNumeral, SpellString, ProperNumeral;
    var s := Spell(syn) + rest;
    match syn
    case NullWord => assert s[..4] == NULL_TEXT && s[4..] == rest;
    case TrueWord =>
      assert s[..4] == TRUE_TEXT && s[4..] == rest;
      assert s[..4][0] == s[0];
      if |s| >= 5 { assert s[..5][0] == s[0]; }
    case FalseWord =>
      assert s[..5] == FALSE_TEXT && s[5..] == rest;
      assert s[..4][0] == s[0];
    case Numeral(minus, whole, fraction, power) =>
      NumeralBytes(minus, whole, fraction, power);
      NumberParses(minus, whole, fraction, power, rest);
      NoLiteral(s);
    case Quoted(chars) =>
      StringParses(chars, rest);
      QuotedHead(chars, rest);
      NoLiteral(s);
  }

  lemma QuotedHead(chars: seq<Char>, rest: Text)
    ensures Head(SpellString(chars) + rest, QUOTE)
  {
  }

  lemma ListCase(gap: Text, elements: seq<Element>, loose: bool, depth: nat, rest: Text)
    requires Proper(List(gap, elements), loose) && depth <= NESTING_LIMIT
    requires elements != [] && depth < NESTING_LIMIT ==>
               ItemsRead(Items(elements), SpellElements(elements) + ([CLOSE_BRACKET] + rest), depth + 1, rest)
    ensures Read(Array(Items(elements)), Spell(List(gap, elements)) + rest, depth, rest)
  {
    hide ParseValue, ParseItems, SpellElements, Skip, Gap, Items;
    var close := [CLOSE_BRACKET] + rest;
    var inner := if elements == [] then gap else SpellElements(elements);
    assert close[1..] == rest;
    assert Spell(List(gap, elements)) + rest == [OPEN_BRACKET] + (inner + close);
    ParseArrayBody(inner + close, depth);
    if elements == [] {
      SkipTo(gap, close, loose);
      assert Items(elements) == [] by { NoElements(); }
    } else {
      ElementsHead(elements, loose, close);
      ItemsBehindGap(inner + close, depth + 1);
    }
  }

  lemma RecordCase(gap: Text, pairs: seq<Pair>, loose: bool, depth: nat, rest: Text)
    requires Proper(Record(gap, pairs), loose) && depth <= NESTING_LIMIT
    requires pairs != [] && depth < NESTING_LIMIT ==>
               MembersRead(Members(pairs), SpellPairs(pairs) + ([CLOSE_BRACE] + rest), depth + 1, rest)
    ensures Read(Object(Members(pairs)), Spell(Record(gap, pairs)) + rest, depth, rest)
  {
    hide ParseValue, ParseMembers, SpellPairs, Skip, Gap, Members;
    var close := [CLOSE_BRACE] + rest;
    var inner := if pairs == [] then gap else SpellPairs(pairs);
    assert close[1..] == rest;
    assert Spell(Record(gap, pairs)) + rest == [OPEN_BRACE] + (inner + close);
    ParseObjectBody(inner + close, depth);
    if pairs == [] {
      SkipTo(gap, close, loose);
      assert Members(pairs) == [] by { NoElements(); }
    } else {
      PairsHead(pairs, loose, close);
      MembersBehindGap(inner + close, depth + 1);
    }
  }

  lemma NoElements()
    ensures Items([]) == [] && Members([]) == []
  {
  }

  /** The parser reads every JSON value, before a byte no number can run into, as what it means. */
  lemma {:induction false} ValueParses(syn: Syntax, loose: bool, depth: nat, rest: Text)
    requires Proper(syn, loose) && Fits(syn) && Boundary(rest) && depth <= NESTING_LIMIT
    ensures Read(Value(syn), Spell(syn) + rest, depth, rest)
    decreases syn, 0
  {
    hide ParseValue, SpellElements, SpellPairs, Gap, Items, Members;
    match syn
    case List(gap, elements) =>
      if elements != [] && depth < NESTING_LIMIT {
        ElementsParse(elements, loose, depth + 1, rest);
      }
      ListCase(gap, elements, loose, depth, rest);
    case Record(gap, pairs) =>
      if pairs != [] && depth < NESTING_LIMIT {
        PairsParse(pairs, loose, depth + 1, rest);
      }
      RecordCase(gap, pairs, loose, depth, rest);
    case _ =>
      ScalarParses(syn, loose, depth, rest);
  }

  lemma ItemsBehindGap(s: Text, depth: nat)
    ensures ParseItems(Skip(s), depth) == ParseItems(s, depth)
  {
  }

  lemma MembersBehindGap(s: Text, depth: nat)
    ensures ParseMembers(Skip(s), depth) == ParseMembers(s, depth)
  {
  }

  /** What stands behind the first element's value: the gap, and the close or a comma and the others. */
  function BehindFirst(elements: seq<Element>, close: Text): Text
    requires elements != []
  {
    if |elements| == 1 then close else [COMMA] + (SpellElements(elements[1..]) + close)
  }

  lemma Regroup(a: Text, b: Text, c: Text)
    ensures (a + b) + c == a + (b + c)
  {
  }

  lemma ElementsSplit(elements: seq<Element>, close: Text)
    requires elements != []
    ensures
      var e := elements[0];
      SpellElements(elements) + close == e.before + (Spell(e.value) + (e.after + BehindFirst(elements, close)))
  {
    hide Spell;
    var e := elements[0];
    var more := if |elements| == 1 then [] else [COMMA] + SpellElements(elements[1..]);
    assert more + close == BehindFirst(elements, close);
    Regroup(e.before, Spell(e.value) + (e.after + more), close);
    Regroup(Spell(e.value), e.after + more, close);
    Regroup(e.after, more, close);
  }

  lemma ElementsHead(elements: seq<Element>, loose: bool, close: Text)
    requires elements != [] && ProperElements(elements, loose)
    ensures Token(Skip(SpellElements(elements) + close)) &&
            !Head(Skip(SpellElements(elements) + close), CLOSE_BRACKET)
  {
    hide Skip, Spell, SpellElements, Gap;
    var e := elements[0];
    ElementsSplit(elements, close);
    SpellHead(e.value, loose);
    SkipTo(e.before, Spell(e.value) + (e.after + BehindFirst(elements, close)), loose);
  }

  function InFront<T>(first: T, others: Parsed<seq<T>>): Parsed<seq<T>> {
    if others.Fail? then Fail else Ok([first] + others.value, others.rest)
  }

  /** What parsing elements comes to once the first one is read. */
  lemma ItemsStep(before: Text, value: Text, behind: Text, loose: bool, depth: nat, v: Json)
    requires Gap(before, loose) && Token(value) && Read(v, value, depth, behind)
    ensures depth + Height(v) > NESTING_LIMIT ==> ParseItems(before + value, depth).Fail?
    ensures depth + Height(v) <= NESTING_LIMIT && Head(Skip(behind), CLOSE_BRACKET) ==>
              ParseItems(before + value, depth) == Ok([v], Skip(behind)[1..])
    ensures depth + Height(v) <= NESTING_LIMIT && Head(Skip(behind), COMMA) ==>
              ParseItems(before + value, depth) == InFront(v, ParseItems(Skip(behind)[1..], depth))
  {
    hide ParseValue, Height, Skip;
    SkipTo(before, value, loose);
  }

  lemma {:induction false} ElementsParse(elements: seq<Element>, loose: bool, depth: nat, rest: Text)
    requires elements != [] && ProperElements(elements, loose) && FitElements(elements) && depth <= NESTING_LIMIT
    ensures ItemsRead(Items(elements), SpellElements(elements) + ([CLOSE_BRACKET] + rest), depth, rest)
    decreases elements, 1
  {
    hide ParseValue, ParseItems, Spell, SpellElements, Value, Skip, Gap, Height;
    var e, close := elements[0], [CLOSE_BRACKET] + rest;
    var tail := BehindFirst(elements, close);
    var behind := e.after + tail;
    ElementsSplit(elements, close);
    SpellHead(e.value, loose);
    BoundaryBehind(e.after, tail, loose);
    ValueParses(e.value, loose, depth, behind);
    ItemsStep(e.before, Spell(e.value) + behind, behind, loose, depth, Value(e.value));
    SkipTo(e.after, tail, loose);
    if |elements| == 1 {
      assert close[1..] == rest;
      assert Items(elements[1..]) == [];
      assert [Value(e.value)] + [] == [Value(e.value)];
    } else {
      var next := SpellElements(elements[1..]) + close;
      assert tail[1..] == next;
      ElementsParse(elements[1..], loose, depth, rest);
      assert Items(elements)[1..] == Items(elements[1..]);
    }
  }

  /** What stands behind the first pair: the close, or a comma and the others. */
  function BehindPair(pairs: seq<Pair>, close: Text): Text
    requires pairs != []
  {
    if |pairs| == 1 then close else [COMMA] + (SpellPairs(pairs[1..]) + close)
  }

  /** A pair behind its name, with what follows it. */
  function Named(p: Pair, behind: Text): Text {
    p.afterName + ([COLON] + (p.beforeValue + (Spell(p.value) + behind)))
  }

  lemma PairsSplit(pairs: seq<Pair>, close: Text)
    requires pairs != []
    ensures
      var p := pairs[0];
      SpellPairs(pairs) + close ==
      p.before + (SpellString(p.name) + Named(p, p.after + BehindPair(pairs, close)))
  {
    hide Spell, SpellString;
    var p := pairs[0];
    var more := if |pairs| == 1 then [] else [COMMA] + SpellPairs(pairs[1..]);
    assert more + close == BehindPair(pairs, close);
    var value := Spell(p.value) + (p.after + more);
    Regroup(p.before, SpellString(p.name) + (p.afterName + ([58] + (p.beforeValue + value))), close);
    Regroup(SpellString(p.name), p.afterName + ([58] + (p.beforeValue + value)), close);
    Regroup(p.afterName, [58] + (p.beforeValue + value), close);
    Regroup([58], p.beforeValue + value, close);
    Regroup(p.beforeValue, value, close);
    Regroup(Spell(p.value), p.after + more, close);
    Regroup(p.after, more, close);
  }

  lemma PairsHead(pairs: seq<Pair>, loose: bool, close: Text)
    requires pairs != [] && ProperPairs(pairs, loose)
    ensures Head(Skip(SpellPairs(pairs) + close), QUOTE)
  {
    hide Skip, Spell, SpellPairs, Gap, Named;
    var p := pairs[0];
    var named := Named(p, p.after + BehindPair(pairs, close));
    PairsSplit(pairs, close);
    QuotedHead(p.name, named);
    SkipTo(p.before, SpellString(p.name) + named, loose);
  }

  lemma PairParses(p: Pair, loose: bool, depth: nat, behind: Text)
    requires ProperPairs([p], loose) && NulFree(CharsBytes(p.name))
    requires Read(Value(p.value), Spell(p.value) + behind, depth, behind)
    ensures ParseMember(SpellString(p.name) + Named(p, behind), depth) ==
            if depth + Height(Value(p.value)) <= NESTING_LIMIT
            then Ok(Member(CharsBytes(p.name), Value(p.value)), behind) else Fail
  {
    hide ParseValue, ParseString, Skip, Spell, SpellString, Gap, Value, Height, ProperChars, Proper, CharsBytes;
    StringParses(p.name, Named(p, behind));
    var value := p.beforeValue + (Spell(p.value) + behind);
    SkipTo(p.afterName, [COLON] + value, loose);
    assert ([COLON] + value)[1..] == value;
    SpellHead(p.value, loose);
    SkipTo(p.beforeValue, Spell(p.value) + behind, loose);
  }

  /** What parsing members comes to once the first one is read. */
  lemma MembersStep(before: Text, s: Text, behind: Text, loose: bool, depth: nat, m: Member)
    requires Gap(before, loose) && Token(s)
    requires ParseMember(s, depth) == if depth + Height(m.value) <= NESTING_LIMIT then Ok(m, behind) else Fail
    ensures depth + Height(m.value) > NESTING_LIMIT ==> ParseMembers(before + s, depth).Fail?
    ensures depth + Height(m.value) <= NESTING_LIMIT && Head(Skip(behind), CLOSE_BRACE) ==>
              ParseMembers(before + s, depth) == Ok([m], Skip(behind)[1..])
    ensures depth + Height(m.value) <= NESTING_LIMIT && Head(Skip(behind), COMMA) ==>
              ParseMembers(before + s, depth) == InFront(m, ParseMembers(Skip(behind)[1..], depth))
  {
    hide ParseMember, Height, Skip;
    SkipTo(before, s, loose);
  }

  lemma {:induction false} PairsParse(pairs: seq<Pair>, loose: bool, depth: nat, rest: Text)
    requires pairs != [] && ProperPairs(pairs, loose) && FitPairs(pairs) && depth <= NESTING_LIMIT
    ensures MembersRead(Members(pairs), SpellPairs(pairs) + ([CLOSE_BRACE] + rest), depth, rest)
    decreases pairs, 1
  {
    hide ParseValue, ParseMember, ParseMembers, Spell, SpellString, SpellPairs, Value, Skip, Gap, Height, Named,
         CharsBytes, ProperChars;
    var p, close := pairs[0], [CLOSE_BRACE] + rest;
    var tail := BehindPair(pairs, close);
    var behind := p.after + tail;
    var m := Member(CharsBytes(p.name), Value(p.value));
    PairsSplit(pairs, close);
    BoundaryBehind(p.after, tail, loose);
    ValueParses(p.value, loose, depth, behind);
    PairParses(p, loose, depth, behind);
    QuotedHead(p.name, Named(p, behind));
    MembersStep(p.before, SpellString(p.name) + Named(p, behind), behind, loose, depth, m);
    SkipTo(p.after, tail, loose);
    if |pairs| == 1 {
      assert close[1..] == rest;
      assert Members(pairs[1..]) == [];
      assert [m] + [] == [m];
    } else {
      var next := SpellPairs(pairs[1..]) + close;
      assert tail[1..] == next;
      PairsParse(pairs[1..], loose, depth, rest);
      assert Members(pairs)[1..] == Members(pairs[1..]);
    }
  }

  // ---- whole texts ------------------------------------------------------------------------------------

  lemma {:induction false} SkipBlanks(w: Text)
    requires Gap(w, true)
    ensures Skip(w + [0]) == [0]
  {
    SkipGap(w, [0]);
  }

  /** A text that starts with a token that is no byte order mark starts there, or behind a mark. */
  lemma MarkSkipped(text: Text, mark: bool)
    requires text != [] && text[0] != 0xEF
    ensures SkipBom((if mark then [0xEF, 0xBB, 0xBF] else []) + text + [0]) == text + [0]
  {
    if mark {
      var s := [0xEF, 0xBB, 0xBF] + text + [0];
      assert s[..3] == BOM && s[3..] == text + [0];
    } else {
      assert [] + text + [0] == text + [0];
      assert |text + [0]| > 4 ==> (text + [0])[..3][0] == text[0];
    }
  }

  /** A whole JSON text, with or without a byte order mark in front, is read to its end as what it
      means, exactly if it is not nested too deeply. */
  lemma TextParses(mark: bool, before: Text, syn: Syntax, after: Text, loose: bool)
    requires Proper(syn, loose) && Fits(syn) && Gap(before, loose) && Gap(after, loose)
    ensures
      ParseWithOpts((if mark then [0xEF, 0xBB, 0xBF] else []) + (before + Spell(syn) + after), true) ==
      if Height(Value(syn)) <= NESTING_LIMIT then Ok(Value(syn), [0]) else Fail
  {
    hide ParseValue, Spell, Skip, SkipBom, Proper, Value, Height, Gap;
    var rest := after + [0];
    TextHead(before, syn, after, loose);
    MarkSkipped(before + Spell(syn) + after, mark);
    assert before + Spell(syn) + after + [0] == before + (Spell(syn) + rest);
    SpellHead(syn, loose);
    SkipTo(before, Spell(syn) + rest, loose);
    BoundaryBehind(after, [0], loose);
    ValueParses(syn, loose, 0, rest);
    LooseGap(after, loose);
    SkipBlanks(after);
  }

  lemma TextHead(before: Text, syn: Syntax, after: Text, loose: bool)
    requires Proper(syn, loose) && Gap(before, loose) && Gap(after, loose)
    ensures var text := before + Spell(syn) + after; text != [] && text[0] != 0xEF
  {
    hide Proper;
    SpellHead(syn, loose);
    FirstByte(syn, loose);
  }

  lemma FirstByte(syn: Syntax, loose: bool)
    requires Proper(syn, loose)
    ensures Spell(syn) != [] && Spell(syn)[0] < 0x80
  {
    match syn
    case Numeral(minus, whole, fraction, power) => NumeralBytes(minus, whole, fraction, power);
    case _ =>
  }

  /** The text is a way to write the value that the parser has room for. */
  ghost predicate DenotesWithin(text: Text, v: Json) {
    exists syn :: Proper(syn, false) && Fits(syn) && Spell(syn) == text && Value(syn) == v
  }

  /** Every text that denotes a value parses to it before any boundary, at any depth that leaves
      room for its nesting. */
  lemma DenotedParses(text: Text, v: Json, depth: nat, rest: Text)
    requires DenotesWithin(text, v) && Boundary(rest) && depth <= NESTING_LIMIT
    ensures Denotes(text, v)
    ensures ParseValue(text + rest, depth) == if depth + Height(v) <= NESTING_LIMIT then Ok(v, rest) else Fail
  {
    hide ParseValue, Spell, Proper, Value, Height, Fits;
    var syn :| Proper(syn, false) && Fits(syn) && Spell(syn) == text && Value(syn) == v;
    ValueParses(syn, false, depth, rest);
  }
}
