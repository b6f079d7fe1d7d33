/** What the parser computes, as a function from the unread text to a value and the text
    left over. The text always carries its NUL terminator. */
module JsonGrammar {
  import opened Bytes
  import opened Decimal
  import opened JsonTree
  import opened Wrappers

  datatype Parsed<+T> = Fail | Ok(value: T, rest: Text)

  predicate Head(s: Text, b: byte) {
    s != [] && s[0] == b
  }

  /** Jumps every byte up to 32, but never past the last byte of the text. */
  function Skip(s: Text): (r: Text)
    ensures |r| <= |s|
  {
    if |s| > 1 && s[0] <= 32 then Skip(s[1..]) else s
  }

  // ---- numbers --------------------------------------------------------------

  const NUMBER_CAPACITY := 63

  predicate IsNumberByte(b: byte) {
    IsDigit(b) || b == PLUS || b == MINUS || b == 101 || b == 69 || b == POINT
  }

  /** Length of the text parse_number copies out: number bytes, at most 63 of them. */
  function NumberRun(s: Text, limit: nat): (n: nat)
    ensures n <= |s| && n <= limit
    ensures forall i :: 0 <= i < n ==> IsNumberByte(s[i])
    ensures n < |s| && n < limit ==> !IsNumberByte(s[n])
  {
    if limit == 0 || s == [] || !IsNumberByte(s[0]) then 0 else 1 + NumberRun(s[1..], limit - 1)
  }

  function ParseNumber(s: Text): (r: Parsed<real>)
    ensures r.Ok? ==> |r.rest| < |s|
  {
    var numeral := s[..NumberRun(s, NUMBER_CAPACITY)];
    var scanned := Strtod(numeral);
    if scanned.length == 0 then Fail else Ok(scanned.value, s[scanned.length..])
  }

  // ---- strings --------------------------------------------------------------

  /** The offset of the quote that ends a string body, jumping over escaped bytes. */
  function ClosingQuote(s: Text): (r: Option<nat>)
    ensures r.Some? ==> r.value < |s| && s[r.value] == QUOTE
  {
    if s == [] then None
    else if s[0] == QUOTE then Some(0)
    else if s[0] == BACKSLASH then
      if |s| < 2 then None
      else
        match ClosingQuote(s[2..])
        case None => None
        case Some(n) => Some(n + 2)
    else
      match ClosingQuote(s[1..])
      case None => None
      case Some(n) => Some(n + 1)
  }

  /** A byte that neither ends nor escapes is passed over. */
  lemma PlainPasses(s: Text)
    requires s != [] && s[0] != QUOTE && s[0] != BACKSLASH
    ensures ClosingQuote(s) == (match ClosingQuote(s[1..]) case None => None case Some(n) => Some(n + 1))
  {
  }

  lemma {:induction false} PlainRunPasses(w: Text, rest: Text)
    requires forall k :: 0 <= k < |w| ==> w[k] != QUOTE && w[k] != BACKSLASH
    ensures ClosingQuote(w + rest) == (match ClosingQuote(rest) case None => None case Some(n) => Some(n + |w|))
  {
    hide ClosingQuote;
    if w == [] {
      assert w + rest == rest;
    } else {
      assert (w + rest)[1..] == w[1..] + rest;
      PlainRunPasses(w[1..], rest);
      PlainPasses(w + rest);
    }
  }

  /** A backslash and the byte behind it are passed over. */
  lemma EscapePasses(s: Text)
    requires |s| >= 2 && s[0] == BACKSLASH
    ensures ClosingQuote(s) == (match ClosingQuote(s[2..]) case None => None case Some(n) => Some(n + 2))
  {
  }

  /** The string body that starts at i is closed by the quote at q. */
  predicate ClosesAt(text: Text, i: nat, q: nat) {
    i <= q < |text| && ClosingQuote(text[i..]) == Some(q - i)
  }

  function HexValue(b: byte): (r: Option<nat>)
    ensures r.Some? ==> r.value < 16
  {
    if 48 <= b <= 57 then Some(b - 48)
    else if 65 <= b <= 70 then Some(b - 55)
    else if 97 <= b <= 102 then Some(b - 87)
    else None
  }

  /** Four hexadecimal digits; 0 when one of them is none. */
  function Hex4(s: Text): (h: nat)
    requires |s| >= 4
    ensures h < 0x10000
  {
    match (HexValue(s[0]), HexValue(s[1]), HexValue(s[2]), HexValue(s[3]))
    case (Some(a), Some(b), Some(c), Some(d)) => ((a * 16 + b) * 16 + c) * 16 + d
    case _ => 0
  }

  /** Section 3 of RFC 3629. */
  function Utf8(u: nat): (s: Text)
    requires u < 0x110000
    ensures 1 <= |s| <= 4
    ensures u < 0x80 ==> |s| == 1
    ensures u < 0x10000 ==> |s| <= 3
  {
    if u < 0x80 then [u]
    else if u < 0x800 then [0xC0 + u / 0x40, 0x80 + u % 0x40]
    else if u < 0x10000 then [0xE0 + u / 0x1000, 0x80 + u / 0x40 % 0x40, 0x80 + u % 0x40]
    else [0xF0 + u / 0x40000, 0x80 + u / 0x1000 % 0x40, 0x80 + u / 0x40 % 0x40, 0x80 + u % 0x40]
  }

  /** A \u literal at the start of s, whose string body ends n bytes later: the bytes the
      literal spans and the code point. */
  function Utf16Literal(s: Text, n: int): (r: Option<(nat, nat)>)
    requires n < |s|
    ensures r.Some? ==> (r.value.0 == 6 && r.value.1 < 0x10000) || (r.value.0 == 12 && 0x10000 <= r.value.1 < 0x110000)
    ensures r.Some? ==> r.value.0 <= n
  {
    if n < 6 then None
    else
      var first := Hex4(s[2..]);
      if 0xDC00 <= first <= 0xDFFF then None
      else if 0xD800 <= first <= 0xDBFF then
        if n < 12 || s[6] != BACKSLASH || s[7] != 117 then None
        else
          var second := Hex4(s[8..]);
          if second < 0xDC00 || second > 0xDFFF then None
          else Some((12, 0x10000 + first % 0x400 * 0x400 + second % 0x400))
      else Some((6, first))
  }

  /** The byte a one-letter escape stands for. */
  function SimpleEscape(b: byte): Option<byte> {
    if b == 98 then Some(8)
    else if b == 102 then Some(12)
    else if b == 110 then Some(10)
    else if b == 114 then Some(13)
    else if b == 116 then Some(9)
    else if b == QUOTE || b == BACKSLASH || b == 47 then Some(b)
    else None
  }

  /** What one decoding step consumes and produces; n bytes of the body are left. */
  function DecodeStep(s: Text, n: int): (r: Option<(nat, Text)>)
    requires 0 < n < |s|
    ensures r.Some? ==> 1 <= r.value.0 <= n + 1
  {
    if s[0] != BACKSLASH then Some((1, [s[0]]))
    else if s[1] == 117 then
      match Utf16Literal(s, n)
      case None => None
      case Some((length, codepoint)) => Some((length, Utf8(codepoint)))
    else
      match SimpleEscape(s[1])
      case None => None
      case Some(b) => Some((2, [b]))
  }

  /** The bytes the first n bytes of s decode to. The last step may run one byte over. */
  function Decode(s: Text, n: int): Option<Text>
    requires n < |s|
    decreases n
  {
    if n <= 0 then Some([])
    else
      match DecodeStep(s, n)
      case None => None
      case Some((length, bytes)) =>
        if length > n then Some(bytes)
        else
          match Decode(s[length..], n - length)
          case None => None
          case Some(tail) => Some(bytes + tail)
  }

  /** A quoted string, read as the C string its output buffer holds. */
  function ParseString(s: Text): (r: Parsed<Text>)
    ensures r.Ok? ==> |r.rest| < |s|
  {
    if !Head(s, QUOTE) then Fail
    else
      match ClosingQuote(s[1..])
      case None => Fail
      case Some(n) =>
        match Decode(s[1..], n)
        case None => Fail
        case Some(bytes) => Ok(CString(bytes), s[n + 2..])
  }

  // ---- values ---------------------------------------------------------------

  function ParseValue(s: Text, depth: nat): (r: Parsed<Json>)
    ensures r.Ok? ==> |r.rest| < |s|
    decreases |s|, 0
  {
    if StartsWith(s, NULL_TEXT) then Ok(Null, s[4..])
    else if StartsWith(s, FALSE_TEXT) then Ok(False, s[5..])
    else if StartsWith(s, TRUE_TEXT) then Ok(True, s[4..])
    else if Head(s, QUOTE) then
      match ParseString(s)
      case Fail => Fail
      case Ok(text, rest) => Ok(String(text), rest)
    else if Head(s, MINUS) || (s != [] && IsDigit(s[0])) then
      match ParseNumber(s)
      case Fail => Fail
      case Ok(n, rest) => Ok(Number(n), rest)
    else if Head(s, OPEN_BRACKET) then
      if depth >= NESTING_LIMIT then Fail
      else
        var body := Skip(s[1..]);
        if Head(body, CLOSE_BRACKET) then Ok(Array([]), body[1..])
        else
          match ParseItems(body, depth + 1)
          case Fail => Fail
          case Ok(items, rest) => Ok(Array(items), rest)
    else if Head(s, OPEN_BRACE) then
      if depth >= NESTING_LIMIT then Fail
      else
        var body := Skip(s[1..]);
        if Head(body, CLOSE_BRACE) then Ok(Object([]), body[1..])
        else
          match ParseMembers(body, depth + 1)
          case Fail => Fail
          case Ok(members, rest) => Ok(Object(members), rest)
    else Fail
  }

  /** Array elements up to and including the closing bracket. */
  function ParseItems(s: Text, depth: nat): (r: Parsed<seq<Json>>)
    ensures r.Ok? ==> |r.rest| < |s|
    decreases |s|, 1
  {
    match ParseValue(Skip(s), depth)
    case Fail => Fail
    case Ok(item, after) =>
      var next := Skip(after);
      if Head(next, COMMA) then
        match ParseItems(next[1..], depth)
        case Fail => Fail
        case Ok(items, rest) => Ok([item] + items, rest)
      else if Head(next, CLOSE_BRACKET) then Ok([item], next[1..])
      else Fail
  }

  /** One `"key" : value` pair. */
  function ParseMember(s: Text, depth: nat): (r: Parsed<Member>)
    ensures r.Ok? ==> |r.rest| < |s|
    decreases |s|, 1
  {
    match ParseString(s)
    case Fail => Fail
    case Ok(key, afterKey) =>
      var colon := Skip(afterKey);
      if !Head(colon, COLON) then Fail
      else
        match ParseValue(Skip(colon[1..]), depth)
        case Fail => Fail
        case Ok(value, rest) => Ok(Member(key, value), rest)
  }

  /** Object members up to and including the closing brace. */
  function ParseMembers(s: Text, depth: nat): (r: Parsed<seq<Member>>)
    ensures r.Ok? ==> |r.rest| < |s|
    decreases |s|, 2
  {
    match ParseMember(Skip(s), depth)
    case Fail => Fail
    case Ok(member, after) =>
      var next := Skip(after);
      if Head(next, COMMA) then
        match ParseMembers(next[1..], depth)
        case Fail => Fail
        case Ok(members, rest) => Ok([member] + members, rest)
      else if Head(next, CLOSE_BRACE) then Ok([member], next[1..])
      else Fail
  }

  const BOM: Text := [0xEF, 0xBB, 0xBF]

  function SkipBom(s: Text): Text
  {
    if |s| > 4 && StartsWith(s, BOM) then s[3..] else s
  }

  /** cJSON_ParseWithOpts on a C string: the tree and the text where parsing ended. */
  function ParseWithOpts(text: Text, requireNullTerminated: bool): Parsed<Json> {
    match ParseValue(Skip(SkipBom(text + [0])), 0)
    case Fail => Fail
    case Ok(v, rest) =>
      if !requireNullTerminated then Ok(v, rest)
      else
        var end := Skip(rest);
        if !Head(end, 0) then Fail else Ok(v, end)
  }
}
