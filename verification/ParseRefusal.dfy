/** What the parser accepts looks like JSON: the structure is strict, and only strings, numbers and
    gaps are taken more loosely than section 2 to 7 of RFC 8259 say. */
module ParseRefusal {
  import opened Bytes
  import opened Decimal
  import opened JsonGrammar
  import opened JsonText
  import opened JsonTree
  import opened ParseMeaning
  import opened Wrappers

  /** A text by its tokens. */
  datatype Rough =
    | Leaf(token: Text)
    | Rows(gap: Text, rows: seq<Row>)
    | Fields(gap: Text, fields: seq<Field>)

  datatype Row = Row(before: Text, value: Rough, after: Text)

  datatype Field = Field(before: Text, key: Text, afterKey: Text, beforeValue: Text, value: Rough, after: Text)

  function RoughText(r: Rough): Text
    decreases r, 0
  {
    match r
    case Leaf(token) => token
    case Rows(gap, rows) => [91] + (if rows == [] then gap else RowsText(rows)) + [93]
    case Fields(gap, fields) => [123] + (if fields == [] then gap else FieldsText(fields)) + [125]
  }

  function RowsText(rows: seq<Row>): Text
    decreases rows, 1
  {
    if rows == [] then []
    else RowText(rows[0]) + if |rows| == 1 then [] else [44] + RowsText(rows[1..])
  }

  function RowText(row: Row): Text
    decreases row, 1
  {
    row.before + RoughText(row.value) + row.after
  }

  function FieldsText(fields: seq<Field>): Text
    decreases fields, 1
  {
    if fields == [] then []
    else FieldText(fields[0]) + if |fields| == 1 then [] else [44] + FieldsText(fields[1..])
  }

  function FieldText(f: Field): Text
    decreases f, 1
  {
    f.before + f.key + f.afterKey + [58] + f.beforeValue + RoughText(f.value) + f.after
  }

  predicate Blank(t: Text) {
    forall i :: 0 <= i < |t| ==> t[i] <= 32
  }

  /** The inside of a string: no quote that is not behind a backslash. */
  predicate Inside(t: Text)
    decreases |t|
  {
    t == [] || (if t[0] == 92 then |t| >= 2 && Inside(t[2..]) else t[0] != 34 && Inside(t[1..]))
  }

  predicate StringToken(t: Text) {
    |t| >= 2 && t[0] == 34 && t[|t| - 1] == 34 && Inside(t[1..|t| - 1])
  }

  /** A number in digits with an optional minus, point and power; unlike in JSON zeros may lead and
      digits may be missing on one side of the point. */
  ghost predicate NumberToken(t: Text, n: real) {
    && 0 < |t| <= 63 && (t[0] == 45 || 48 <= t[0] <= 57)
    && exists minus, whole, dotted, fraction, power ::
         LooseNumeral(t, minus, whole, dotted, fraction, power) && n == NumeralValue(minus, whole, fraction, power)
  }

  predicate LooseNumeral(t: Text, minus: bool, whole: Text, dotted: bool, fraction: Text, power: Option<Power>) {
    && Numeric(whole) && Numeric(fraction) && whole + fraction != [] && (dotted || fraction == [])
    && ProperNumeral([48], [], power)
    && t == (if minus then [45] else []) + (whole + (if dotted then [46] + fraction else []) + SpellPower(power))
  }

  /** The tokens are those of the value. */
  ghost predicate Sound(r: Rough, v: Json)
    decreases v, 0
  {
    match v
    case Null => r == Leaf([110, 117, 108, 108])
    case False => r == Leaf([102, 97, 108, 115, 101])
    case True => r == Leaf([116, 114, 117, 101])
    case Number(n) => r.Leaf? && NumberToken(r.token, n)
    case String(_) => r.Leaf? && StringToken(r.token)
    case Array(items) => r.Rows? && Blank(r.gap) && SoundRows(r.rows, items)
    case Object(members) => r.Fields? && Blank(r.gap) && SoundFields(r.fields, members)
  }

  ghost predicate SoundRows(rows: seq<Row>, items: seq<Json>)
    decreases items, 1
  {
    && |rows| == |items|
    && (rows == [] ||
        (Blank(rows[0].before) && Blank(rows[0].after) && Sound(rows[0].value, items[0])
         && SoundRows(rows[1..], items[1..])))
  }

  ghost predicate SoundFields(fields: seq<Field>, members: seq<Member>)
    decreases members, 1
  {
    && |fields| == |members|
    && (fields == [] ||
        (SoundField(fields[0], members[0]) && SoundFields(fields[1..], members[1..])))
  }

  ghost predicate SoundField(f: Field, m: Member)
    decreases m, 1
  {
    && Blank(f.before) && StringToken(f.key) && Blank(f.afterKey) && Blank(f.beforeValue) && Sound(f.value, m.value)
    && Blank(f.after)
  }

  // ---- tokens -----------------------------------------------------------------------------------

  /** What Skip passes over. */
  lemma {:induction false} SkipPasses(s: Text) returns (w: Text)
    ensures Blank(w) && s == w + Skip(s)
  {
    if |s| > 1 && s[0] <= 32 {
      w := SkipPasses(s[1..]);
      assert s == [s[0]] + s[1..];
      w := [s[0]] + w;
    } else {
      w := [];
    }
  }

  lemma {:induction false} InsideBefore(s: Text, n: nat)
    requires ClosingQuote(s) == Some(n)
    ensures n < |s| && s[n] == 34 && Inside(s[..n])
    decreases |s|
  {
    if s[0] != 34 {
      var k := if s[0] == 92 then 2 else 1;
      InsideBefore(s[k..], n - k);
      assert s[k..][..n - k] == s[..n][k..] && s[k..][n - k] == s[n];
    }
  }

  lemma StringTaken(s: Text) returns (token: Text)
    requires ParseString(s).Ok?
    ensures StringToken(token) && s == token + ParseString(s).rest
  {
    hide Decode, ClosingQuote, Inside;
    var n := ClosingQuote(s[1..]).value;
    InsideBefore(s[1..], n);
    token := s[..n + 2];
    assert token[1..|token| - 1] == s[1..][..n];
    assert s[n + 1] == s[1..][n];
  }

  lemma PowerTaken(s: Text, m: nat) returns (power: Option<Power>)
    requires m <= |s|
    ensures
      var (length, e) := Exponent(s, m);
      ProperNumeral([48], [], power) && SpellPower(power) == s[m..m + length] && PowerOf(power) == e
  {
    hide DigitRun, NatValue, Whole;
    var (length, e) := Exponent(s, m);
    if length == 0 {
      power := None;
    } else {
      var k := if IsSign(s, m + 1) then 1 else 0;
      var t := s[m + 1 + k..];
      var digits := t[..DigitRun(t)];
      DigitsNumeric(digits);
      NatIsWhole(digits);
      power := Some(Power(s[m], s[m + 1..m + 1 + k], digits));
      assert s[m..m + length] == [s[m]] + s[m + 1..m + 1 + k] + digits;
    }
  }

  lemma DigitsNumeric(t: Text)
    requires AllDigits(t)
    ensures Numeric(t)
  {
  }

  /** The parts of a numeral as strtod finds them behind the sign. */
  lemma MantissaTaken(u: Text) returns (whole: Text, dotted: bool, fraction: Text, m: nat)
    requires Unsigned(u).length > 0
    ensures m <= |u| && u[..m] == whole + (if dotted then [46] + fraction else [])
    ensures Numeric(whole) && Numeric(fraction) && whole + fraction != [] && (dotted || fraction == [])
    ensures AllDigits(whole + fraction)
    ensures
      var (length, e) := Exponent(u, m);
      Unsigned(u) == Scanned(m + length, Magnitude(whole + fraction, e - |fraction|))
  {
    hide DigitRun, Exponent, Magnitude;
    var w := DigitRun(u);
    whole, dotted := u[..w], w < |u| && u[w] == POINT;
    fraction := if dotted then u[w + 1..][..DigitRun(u[w + 1..])] else [];
    m := w + if dotted then 1 + |fraction| else 0;
    DigitsNumeric(whole);
    DigitsNumeric(fraction);
    if dotted {
      assert u[..m] == whole + ([46] + fraction);
    } else {
      assert whole + [] == whole;
    }
  }

  /** strtod behind the sign. */
  lemma UnsignedTaken(u: Text) returns (whole: Text, dotted: bool, fraction: Text, power: Option<Power>)
    requires Unsigned(u).length > 0
    ensures LooseNumeral(u[..Unsigned(u).length], false, whole, dotted, fraction, power)
    ensures Unsigned(u).value == NumeralSize(whole, fraction, PowerOf(power))
  {
    hide Unsigned, DigitRun, NatValue, Exponent, Magnitude, PowerOf, NumeralSize, SpellPower, ProperNumeral, Numeric,
         AllDigits;
    var m;
    whole, dotted, fraction, m := MantissaTaken(u);
    power := PowerTaken(u, m);
    AllDigitsParts(whole, fraction);
    NatIsWhole(whole);
    MagnitudeMeans(whole, fraction, PowerOf(power));
    var n := Unsigned(u).length;
    assert u[..n] == u[..m] + u[m..n];
    assert [] + u[..n] == u[..n];
  }

  lemma AllDigitsParts(a: Text, b: Text)
    requires AllDigits(a + b)
    ensures AllDigits(a) && AllDigits(b)
  {
    assert forall i :: 0 <= i < |a| ==> a[i] == (a + b)[i];
    assert forall i :: 0 <= i < |b| ==> b[i] == (a + b)[|a| + i];
  }

  lemma NumberTaken(s: Text) returns (token: Text)
    requires ParseNumber(s).Ok? && (Head(s, MINUS) || (s != [] && IsDigit(s[0])))
    ensures NumberToken(token, ParseNumber(s).value) && s == token + ParseNumber(s).rest
  {
    hide Unsigned, NumberRun, NumeralSize, PowerOf, SpellPower, ProperNumeral, Numeric;
    var numeral := s[..NumberRun(s, NUMBER_CAPACITY)];
    var minus := numeral[0] == MINUS;
    var u := if minus then numeral[1..] else numeral;
    assert numeral[0..] == numeral;
    var whole, dotted, fraction, power := UnsignedTaken(u);
    token := s[..Strtod(numeral).length];
    assert token == (if minus then [45] else []) + u[..Unsigned(u).length];
    assert LooseNumeral(token, minus, whole, dotted, fraction, power);
    assert ParseNumber(s).value == NumeralValue(minus, whole, fraction, power);
  }

  // ---- values -------------------------------------------------------------------------------------

  /** Which of the seven kinds of value is read, by the first byte or the literal. */
  lemma ScalarTaken(s: Text, depth: nat) returns (r: Rough)
    requires ParseValue(s, depth).Ok? && !Head(s, OPEN_BRACKET) && !Head(s, OPEN_BRACE)
    ensures Sound(r, ParseValue(s, depth).value) && s == RoughText(r) + ParseValue(s, depth).rest
  {
    hide ParseString, ParseNumber, ParseItems, ParseMembers, StringToken, NumberToken;
    var v := ParseValue(s, depth).value;
    var n := if v == False then 5 else 4;
    if v.Number? {
      var token := NumberTaken(s);
      r := Leaf(token);
    } else if v.String? {
      var token := StringTaken(s);
      r := Leaf(token);
    } else {
      r := Leaf(s[..n]);
      assert s == s[..n] + s[n..];
      assert v.Null? ==> s[..n] == NULL_TEXT;
      assert v.True? ==> s[..n] == TRUE_TEXT;
    }
  }

  /** Every text a value is read from consists of the value's tokens: every comma, colon, bracket and
      brace is there, in pairs and in order, with nothing but blanks and control characters between
      the tokens. */
  lemma {:induction false} ValueTaken(s: Text, depth: nat) returns (r: Rough)
    requires ParseValue(s, depth).Ok?
    ensures Sound(r, ParseValue(s, depth).value) && s == RoughText(r) + ParseValue(s, depth).rest
    decreases |s|, 0
  {
    hide ParseValue, ParseItems, ParseMembers, RowsText, FieldsText, SoundRows, SoundFields, Skip;
    var rest := ParseValue(s, depth).rest;
    if Head(s, OPEN_BRACKET) {
      var w := SkipPasses(s[1..]);
      var body := Skip(s[1..]);
      ParseArrayBody(s[1..], depth);
      assert s == [91] + s[1..];
      if Head(body, CLOSE_BRACKET) {
        r := Rows(w, []);
        NoRows();
        assert s == [91] + w + [93] + rest;
      } else {
        var rows := RowsTaken(body, w, depth + 1);
        r := Rows([], rows);
        assert s == [91] + (RowsText(rows) + ([93] + rest)) == [91] + RowsText(rows) + [93] + rest;
      }
    } else if Head(s, OPEN_BRACE) {
      var w := SkipPasses(s[1..]);
      var body := Skip(s[1..]);
      ParseObjectBody(s[1..], depth);
      assert s == [123] + s[1..];
      if Head(body, CLOSE_BRACE) {
        r := Fields(w, []);
        NoRows();
        assert s == [123] + w + [125] + rest;
      } else {
        var fields := FieldsTaken(body, w, depth + 1);
        r := Fields([], fields);
        assert s == [123] + (FieldsText(fields) + ([125] + rest)) == [123] + FieldsText(fields) + [125] + rest;
      }
    } else {
      r := ScalarTaken(s, depth);
    }
  }

  lemma NoRows()
    ensures SoundRows([], []) && SoundFields([], [])
  {
  }

  lemma BlankJoin(a: Text, b: Text)
    requires Blank(a) && Blank(b)
    ensures Blank(a + b)
  {
  }

  /** One more element in front. */
  lemma RowSound(row: Row, v: Json, rows: seq<Row>, items: seq<Json>) returns (all: seq<Row>)
    requires Blank(row.before) && Blank(row.after) && Sound(row.value, v) && SoundRows(rows, items)
    ensures all == [row] + rows && SoundRows(all, [v] + items) && |all| > 0
    ensures RowsText(all) == RowText(row) + if rows == [] then [] else [44] + RowsText(rows)
  {
    hide Sound, RoughText;
    all := [row] + rows;
    assert all[1..] == rows && ([v] + items)[1..] == items;
    assert |rows| == |items|;
  }

  /** The first element of an array's text: its gaps and its tokens, and what stands behind them. */
  lemma {:induction false} RowTaken(s: Text, before: Text, depth: nat) returns (row: Row, next: Text)
    requires ParseValue(Skip(s), depth).Ok? && Blank(before)
    ensures Blank(row.before) && Blank(row.after) && Sound(row.value, ParseValue(Skip(s), depth).value)
    ensures next == Skip(ParseValue(Skip(s), depth).rest) && before + s == RowText(row) + next
    decreases |s|, 1
  {
    hide ParseValue, Sound, RoughText, Skip;
    var w := SkipPasses(s);
    var value := ValueTaken(Skip(s), depth);
    var after := SkipPasses(ParseValue(Skip(s), depth).rest);
    next := Skip(ParseValue(Skip(s), depth).rest);
    BlankJoin(before, w);
    row := Row(before + w, value, after);
    assert before + (w + (RoughText(value) + (after + next))) == before + w + RoughText(value) + after + next;
  }

  lemma {:induction false} RowsTaken(s: Text, before: Text, depth: nat) returns (rows: seq<Row>)
    requires ParseItems(s, depth).Ok? && Blank(before)
    ensures rows != [] && SoundRows(rows, ParseItems(s, depth).value)
    ensures before + s == RowsText(rows) + ([93] + ParseItems(s, depth).rest)
    decreases |s|, 2
  {
    hide ParseValue, Sound, RowText, RowsText, Skip, SoundRows;
    var row, next := RowTaken(s, before, depth);
    var v := ParseValue(Skip(s), depth).value;
    var close := [93] + ParseItems(s, depth).rest;
    assert next == [next[0]] + next[1..];
    if Head(next, COMMA) {
      var more := RowsTaken(next[1..], [], depth);
      rows := RowSound(row, v, more, ParseItems(next[1..], depth).value);
      assert [] + next[1..] == next[1..];
      Regroup([44], RowsText(more), close);
      Regroup(RowText(row), [44] + RowsText(more), close);
    } else {
      NoRows();
      rows := RowSound(row, v, [], []);
      assert [v] + [] == [v] && RowText(row) + [] == RowText(row);
    }
  }

  lemma FieldSound(f: Field, m: Member, fields: seq<Field>, members: seq<Member>) returns (all: seq<Field>)
    requires SoundField(f, m) && SoundFields(fields, members)
    ensures all == [f] + fields && SoundFields(all, [m] + members) && |all| > 0
    ensures FieldsText(all) == FieldText(f) + if fields == [] then [] else [44] + FieldsText(fields)
  {
    hide SoundField, FieldText;
    all := [f] + fields;
    assert all[1..] == fields && ([m] + members)[1..] == members;
    assert |fields| == |members|;
  }

  /** A key, the colon and the value. */
  lemma {:induction false} PairTaken(s: Text, before: Text, depth: nat) returns (f: Field)
    requires ParseMember(s, depth).Ok? && Blank(before)
    ensures f.after == [] && SoundField(f, ParseMember(s, depth).value)
    ensures before + s == FieldText(f) + ParseMember(s, depth).rest
    decreases |s|, 1
  {
    hide ParseValue, ParseString, Sound, StringToken, RoughText, Skip;
    var key := StringTaken(s);
    var afterKey := ParseString(s).rest;
    var w := SkipPasses(afterKey);
    var colon := Skip(afterKey);
    assert colon == [58] + colon[1..];
    var gap := SkipPasses(colon[1..]);
    var value := ValueTaken(Skip(colon[1..]), depth);
    var rest := ParseMember(s, depth).rest;
    f := Field(before, key, w, gap, value, []);
    PairSpelled(before, key, w, gap, RoughText(value), rest);
  }

  lemma PairSpelled(before: Text, key: Text, w: Text, gap: Text, value: Text, rest: Text)
    ensures before + (key + (w + ([58] + (gap + (value + rest))))) == before + key + w + [58] + gap + value + [] + rest
  {
    Regroup(before + key + w + [58] + gap, value, rest);
    Regroup(before + key + w + [58], gap, value + rest);
    Regroup(before + key + w, [58], gap + (value + rest));
    Regroup(before + key, w, [58] + (gap + (value + rest)));
    Regroup(before, key, w + ([58] + (gap + (value + rest))));
    assert before + key + w + [58] + gap + value + [] == before + key + w + [58] + gap + value;
  }

  lemma {:induction false} FieldTaken(s: Text, before: Text, depth: nat) returns (f: Field, next: Text)
    requires ParseMember(Skip(s), depth).Ok? && Blank(before)
    ensures SoundField(f, ParseMember(Skip(s), depth).value)
    ensures next == Skip(ParseMember(Skip(s), depth).rest) && before + s == FieldText(f) + next
    decreases |s|, 2
  {
    hide ParseMember, Sound, StringToken, RoughText, Skip;
    var w := SkipPasses(s);
    BlankJoin(before, w);
    var g := PairTaken(Skip(s), before + w, depth);
    var after := SkipPasses(ParseMember(Skip(s), depth).rest);
    next := Skip(ParseMember(Skip(s), depth).rest);
    f := g.(after := after);
    var text := g.before + g.key + g.afterKey + [58] + g.beforeValue + RoughText(g.value);
    assert text + [] == text;
    Regroup(before, w, Skip(s));
    Regroup(text, after, next);
  }

  lemma {:induction false} FieldsTaken(s: Text, before: Text, depth: nat) returns (fields: seq<Field>)
    requires ParseMembers(s, depth).Ok? && Blank(before)
    ensures fields != [] && SoundFields(fields, ParseMembers(s, depth).value)
    ensures before + s == FieldsText(fields) + ([125] + ParseMembers(s, depth).rest)
    decreases |s|, 3
  {
    hide ParseMember, SoundField, FieldText, FieldsText, Skip, SoundFields;
    var f, next := FieldTaken(s, before, depth);
    var m := ParseMember(Skip(s), depth).value;
    var close := [125] + ParseMembers(s, depth).rest;
    assert next == [next[0]] + next[1..];
    if Head(next, COMMA) {
      var more := FieldsTaken(next[1..], [], depth);
      fields := FieldSound(f, m, more, ParseMembers(next[1..], depth).value);
      assert [] + next[1..] == next[1..];
      Regroup([44], FieldsText(more), close);
      Regroup(FieldText(f), [44] + FieldsText(more), close);
    } else {
      NoRows();
      fields := FieldSound(f, m, [], []);
      assert [m] + [] == [m] && FieldText(f) + [] == FieldText(f);
    }
  }

  // ---- whole texts -----------------------------------------------------------------------------------

  function Mark(mark: bool): Text {
    if mark then [0xEF, 0xBB, 0xBF] else []
  }

  lemma MarkTaken(s: Text) returns (mark: bool)
    ensures s == Mark(mark) + SkipBom(s)
  {
    mark := SkipBom(s) != s;
  }

  /** An accepted text is an optional byte order mark, a gap and the tokens of the value; if the text
      must end there, only a gap follows. */
  lemma TextTaken(text: Text, strict: bool) returns (mark: bool, before: Text, r: Rough, after: Text)
    requires ParseWithOpts(text, strict).Ok? && NulFree(text)
    ensures Blank(before) && Sound(r, ParseWithOpts(text, strict).value)
    ensures text + [0] == Mark(mark) + before + RoughText(r) + after
    ensures strict ==> Blank(after) && ParseWithOpts(text, strict).rest == [0]
    ensures !strict ==> ParseWithOpts(text, strict).rest == after
  {
    hide ParseValue, Sound, RoughText, Skip, SkipBom, Blank, Mark;
    var s := text + [0];
    mark := MarkTaken(s);
    var t := SkipBom(s);
    before := SkipPasses(t);
    r := ValueTaken(Skip(t), 0);
    after := ParseValue(Skip(t), 0).rest;
    Regroup(Mark(mark) + before, RoughText(r), after);
    Regroup(Mark(mark), before, RoughText(r) + after);
    if strict {
      var w := SkipPasses(after);
      EndTaken(text, Mark(mark) + before + RoughText(r), w, Skip(after));
    }
  }

  /** Behind the last gap stands only the terminator. */
  lemma EndTaken(text: Text, front: Text, w: Text, end: Text)
    requires NulFree(text) && Blank(w) && Head(end, 0) && text + [0] == front + (w + end)
    ensures end == [0] && Blank(w + end)
  {
    assert (text + [0])[|front| + |w|] == end[0];
    TerminatorLast(text, |front| + |w|);
  }

  lemma TerminatorLast(text: Text, k: nat)
    requires NulFree(text) && k <= |text| && (text + [0])[k] == 0
    ensures k == |text|
  {
  }

  // ---- strings that are refused -------------------------------------------------------------------

  /** Four hexadecimal digits, read as a code unit. */
  predicate UnitAt(t: Text, k: nat, low: nat, high: nat) {
    && k + 6 <= |t| && t[k] == 92 && t[k + 1] == 117
    && (forall i :: k + 2 <= i < k + 6 ==> IsHexDigit(t[i])) && low <= CodeUnit(t[k + 2..k + 6]) < high
  }

  /** An escape that JSON does not know, or half a surrogate pair. */
  predicate BadEscape(t: Text) {
    || (|t| >= 2 && t[0] == 92 && t[1] !in {34, 92, 47, 98, 102, 110, 114, 116, 117})
    || UnitAt(t, 0, 0xDC00, 0xE000)
    || (UnitAt(t, 0, 0xD800, 0xDC00) && (|t| < 8 || t[6] != 92 || t[7] != 117))
    || (UnitAt(t, 0, 0xD800, 0xDC00) && (UnitAt(t, 6, 0, 0xDC00) || UnitAt(t, 6, 0xE000, 0x1_0000)))
  }

  lemma BadStep(t: Text, n: int)
    requires BadEscape(t) && 0 < n < |t|
    ensures DecodeStep(t, n) == None
  {
    hide IsHexDigit, CodeUnit, Hex4;
    if t[1] == 117 {
      assert t[2..][..4] == t[2..6];
      UnitAgrees(t[2..6], t[2..]);
      if UnitAt(t, 6, 0, 0xDC00) || UnitAt(t, 6, 0xE000, 0x1_0000) {
        assert t[8..][..4] == t[8..12];
        UnitAgrees(t[8..12], t[8..]);
      }
    }
  }

  lemma {:induction false} BadDecodes(chars: seq<Char>, t: Text, n: int)
    requires ProperChars(chars) && BadEscape(t) && |SpellChars(chars)| < n < |SpellChars(chars)| + |t|
    ensures Decode(SpellChars(chars) + t, n) == None
  {
    hide DecodeStep, ProperChar, SpellChar, CharBytes, BadEscape;
    if chars == [] {
      assert SpellChars(chars) + t == t;
      BadStep(t, n);
    } else {
      var c, u := chars[0], SpellChars(chars[1..]) + t;
      assert SpellChars(chars) + t == SpellChar(c) + u;
      assert (SpellChar(c) + u)[|SpellChar(c)|..] == u;
      CharDecodes(c, u, n);
      BadDecodes(chars[1..], t, n - |SpellChar(c)|);
    }
  }

  lemma {:induction false} ScanBehind(chars: seq<Char>, t: Text)
    requires ProperChars(chars)
    ensures ClosingQuote(SpellChars(chars) + t) ==
            if ClosingQuote(t).None? then None else Some(ClosingQuote(t).value + |SpellChars(chars)|)
  {
    hide ClosingQuote, ProperChar, SpellChar;
    if chars == [] {
      assert SpellChars(chars) + t == t;
    } else {
      ScanBehind(chars[1..], t);
      CharScans(chars[0], SpellChars(chars[1..]) + t);
      assert SpellChars(chars) + t == SpellChar(chars[0]) + (SpellChars(chars[1..]) + t);
    }
  }

  lemma BackslashOpen(t: Text)
    requires BadEscape(t)
    ensures t[0] == 92 && ClosingQuote(t) != Some(0)
  {
  }

  /** Neither such an escape behind proper characters nor a missing end is accepted. */
  lemma StringRefused(chars: seq<Char>, t: Text)
    requires ProperChars(chars) && (BadEscape(t) || t == [] || t == [0])
    ensures ParseString([34] + SpellChars(chars) + t) == Fail
  {
    hide ClosingQuote, Decode, ProperChars, SpellChars, BadEscape;
    var s := [34] + SpellChars(chars) + t;
    assert s[1..] == SpellChars(chars) + t;
    ScanBehind(chars, t);
    if BadEscape(t) {
      BackslashOpen(t);
      if ClosingQuote(t).Some? {
        BadDecodes(chars, t, ClosingQuote(s[1..]).value);
      }
    } else {
      NothingCloses();
    }
  }

  lemma NothingCloses()
    ensures ClosingQuote([]) == None && ClosingQuote([0]) == None
  {
    assert [0 as byte][1..] == [];
  }
}
