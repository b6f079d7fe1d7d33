/** Printing and parsing undo each other, whatever blanks stand between the tokens. */
module RoundTrip {
  import opened Bytes
  import opened Decimal
  import opened JsonGrammar
  import opened JsonText
  import opened JsonTree
  import opened ParseMeaning
  import opened Wrappers

  /** The layout consists of gaps. */
  predicate GapLayout(L: Layout, loose: bool) {
    Gap(L.afterComma, loose) && Gap(L.afterOpen, loose) && Gap(L.indent, loose) && Gap(L.afterColon, loose)
    && Gap(L.afterMember, loose)
  }

  // ---- what a printed value is a spelling of ----------------------------------------------------

  /** The character that a byte is printed as. */
  function CharOf(b: byte): Char {
    if b > 31 && b != QUOTE && b != BACKSLASH then Plain(b)
    else if b == BACKSLASH || b == QUOTE then Short(b, b)
    else if b == 8 then Short(98, 8)
    else if b == 12 then Short(102, 12)
    else if b == 10 then Short(110, 10)
    else if b == 13 then Short(114, 13)
    else if b == 9 then Short(116, 9)
    else Long([48, 48, HexDigit(b / 16), HexDigit(b % 16)], [b])
  }

  function CharsOf(s: Text): seq<Char> {
    if s == [] then [] else [CharOf(s[0])] + CharsOf(s[1..])
  }

  function NumeralOf(n: int): Syntax {
    Numeral(n < 0, Digits(if n < 0 then -n else n), [], None)
  }

  /** How a value is written when it is printed at nesting depth `d`. */
  function SyntaxOf(v: Json, L: Layout, d: nat): Syntax
    decreases v, 0
  {
    match v
    case Null => NullWord
    case False => FalseWord
    case True => TrueWord
    case Number(n) => NumeralOf(n.Floor)
    case String(s) => Quoted(CharsOf(s))
    case Array(items) => List([], ElementsOf(items, L, d + 1, []))
    case Object(members) => Record(L.afterOpen + Repeat(L.indent, d), PairsOf(members, L, d + 1, d, L.afterOpen))
  }

  function ElementsOf(items: seq<Json>, L: Layout, d: nat, lead: Text): seq<Element>
    decreases items, 1
  {
    if items == [] then []
    else [Element(lead, SyntaxOf(items[0], L, d), [])] + ElementsOf(items[1..], L, d, L.afterComma)
  }

  function PairsOf(members: seq<Member>, L: Layout, d: nat, d0: nat, lead: Text): seq<Pair>
    decreases members, 1
  {
    if members == [] then []
    else
      var last := if |members| == 1 then L.afterMember + Repeat(L.indent, d0) else [];
      [Pair(lead + Repeat(L.indent, d), CharsOf(members[0].key), [], L.afterColon, SyntaxOf(members[0].value, L, d),
            last)] + PairsOf(members[1..], L, d, d0, L.afterMember)
  }

  // ---- the spelling is the printed text ---------------------------------------------------------

  lemma {:induction false} CharsSpelled(s: Text)
    ensures SpellChars(CharsOf(s)) == Escape(s)
  {
    if s != [] {
      CharsSpelled(s[1..]);
      assert SpellChar(CharOf(s[0])) == EscapeByte(s[0]);
    }
  }

  lemma NumeralSpelled(n: int)
    ensures Spell(NumeralOf(n)) == IntText(n)
  {
  }

  /** Printing a value writes its spelling. */
  lemma {:induction false} Spelled(v: Json, L: Layout, d: nat)
    ensures Spell(SyntaxOf(v, L, d)) == Render(v, L, d)
    decreases v, 0
  {
    hide SpellElements, SpellPairs, RenderItems, RenderMembers, ElementsOf, PairsOf;
    match v
    case Number(n) => NumeralSpelled(n.Floor);
    case String(s) => CharsSpelled(s);
    case Array(items) =>
      ElementsSpelled(items, L, d + 1, []);
      assert [] + RenderItems(items, L, d + 1) == RenderItems(items, L, d + 1);
      NothingSpelled(L, d);
    case Object(members) =>
      PairsSpelled(members, L, d + 1, d, L.afterOpen);
      NothingSpelled(L, d);
      var inner := RenderMembers(members, L, d + 1);
      assert [OPEN_BRACE] + (L.afterOpen + (inner + Repeat(L.indent, d))) + [CLOSE_BRACE] ==
             [OPEN_BRACE] + L.afterOpen + inner + Repeat(L.indent, d) + [CLOSE_BRACE];
      assert [] + Repeat(L.indent, d) == Repeat(L.indent, d);
    case _ =>
  }

  lemma NothingSpelled(L: Layout, d: nat)
    ensures RenderItems([], L, d + 1) == [] && RenderMembers([], L, d + 1) == []
    ensures ElementsOf([], L, d + 1, []) == [] && PairsOf([], L, d + 1, d, L.afterOpen) == []
  {
  }

  lemma {:induction false} ElementsSpelled(items: seq<Json>, L: Layout, d: nat, lead: Text)
    ensures |ElementsOf(items, L, d, lead)| == |items|
    ensures items != [] ==> SpellElements(ElementsOf(items, L, d, lead)) == lead + RenderItems(items, L, d)
    decreases items, 1
  {
    hide Spell, Render;
    if items != [] {
      var more := ElementsOf(items[1..], L, d, L.afterComma);
      ElementsSpelled(items[1..], L, d, L.afterComma);
      Spelled(items[0], L, d);
      var value, others := Render(items[0], L, d), RenderItems(items[1..], L, d);
      assert ElementsOf(items, L, d, lead)[1..] == more;
      if |items| == 1 {
        assert value + ([] + []) == value + [] + others;
      } else {
        assert value + ([] + ([COMMA] + (L.afterComma + others))) == value + ([COMMA] + L.afterComma) + others;
      }
    }
  }

  lemma {:induction false} PairsSpelled(members: seq<Member>, L: Layout, d: nat, d0: nat, lead: Text)
    ensures |PairsOf(members, L, d, d0, lead)| == |members|
    ensures members != [] ==>
              SpellPairs(PairsOf(members, L, d, d0, lead)) ==
              lead + (RenderMembers(members, L, d) + Repeat(L.indent, d0))
    decreases members, 1
  {
    hide Spell, Render, RenderMember, RenderMembers, SpellString, Repeat;
    if members != [] {
      var m, more := members[0], PairsOf(members[1..], L, d, d0, L.afterMember);
      PairsSpelled(members[1..], L, d, d0, L.afterMember);
      Spelled(m.value, L, d);
      QuoteSpelled(m.key);
      assert PairsOf(members, L, d, d0, lead)[1..] == more;
      var w := Repeat(L.indent, d0);
      MembersTail(members, L, d, w);
      var tail := if |members| == 1 then L.afterMember + w
                  else [COMMA] + (L.afterMember + (RenderMembers(members[1..], L, d) + w));
      assert |members| == 1 ==> tail + [] == tail;
      assert |members| > 1 ==> [] + tail == tail;
      PairText(m, L, d, lead, tail);
    }
  }

  lemma QuoteSpelled(s: Text)
    ensures SpellString(CharsOf(s)) == Quote(s)
  {
    CharsSpelled(s);
  }

  /** What follows the first member's value. */
  lemma MembersTail(members: seq<Member>, L: Layout, d: nat, w: Text)
    requires members != []
    ensures RenderMembers(members, L, d) + w ==
            RenderMember(members[0], L, d) +
            if |members| == 1 then L.afterMember + w
            else [COMMA] + (L.afterMember + (RenderMembers(members[1..], L, d) + w))
  {
    hide RenderMember;
    var m := RenderMember(members[0], L, d);
    if |members| == 1 {
      assert RenderMembers(members[1..], L, d) == [];
      assert m + ([] + L.afterMember) + [] + w == m + (L.afterMember + w);
    } else {
      var others := RenderMembers(members[1..], L, d);
      assert m + ([COMMA] + [] + L.afterMember) + others + w == m + ([COMMA] + (L.afterMember + (others + w)));
    }
  }

  lemma PairText(m: Member, L: Layout, d: nat, lead: Text, tail: Text)
    ensures lead + (RenderMember(m, L, d) + tail) ==
            lead + Repeat(L.indent, d)
            + (Quote(m.key) + ([] + ([COLON] + (L.afterColon + (Render(m.value, L, d) + tail)))))
  {
    hide Render, Quote, Repeat;
    var w, k, v := Repeat(L.indent, d), Quote(m.key), Render(m.value, L, d);
    assert [] + ([COLON] + (L.afterColon + (v + tail))) == [COLON] + (L.afterColon + (v + tail));
    Regroup(w + k + [COLON] + L.afterColon, v, tail);
    Regroup(w + k + [COLON], L.afterColon, v + tail);
    Regroup(w + k, [COLON], L.afterColon + (v + tail));
    Regroup(w, k, [COLON] + (L.afterColon + (v + tail)));
    Regroup(lead, w, k + ([COLON] + (L.afterColon + (v + tail))));
  }

  // ---- it is a proper one, and means the value ----------------------------------------------------

  lemma CharMeans(b: byte)
    ensures ProperChar(CharOf(b)) && CharBytes(CharOf(b)) == [b]
  {
    if CharOf(b).Long? {
      var digits := CharOf(b).digits;
      assert HexDigitValue(digits[2]) == b / 16 && HexDigitValue(digits[3]) == b % 16;
      assert CodeUnit(digits) == b;
    }
  }

  lemma {:induction false} CharsMean(s: Text)
    ensures ProperChars(CharsOf(s)) && CharsBytes(CharsOf(s)) == s
  {
    hide ProperChar, CharBytes;
    if s != [] {
      CharsMean(s[1..]);
      CharMeans(s[0]);
      assert [s[0]] + s[1..] == s;
    }
  }

  lemma NumeralMeans(n: int)
    ensures Proper(NumeralOf(n), false) && Value(NumeralOf(n)) == Number(n as real)
  {
    hide Digits;
    var k: nat := if n < 0 then -n else n;
    var digits := Digits(k);
    NatIsWhole(digits);
    DigitsRoundTrip(k);
    EmptyFraction();
  }

  lemma NumeralFits(n: real)
    requires PrintableNumber(n)
    ensures |Spell(NumeralOf(n.Floor))| <= 16
  {
    hide Digits;
    var k: nat := if n.Floor < 0 then -n.Floor else n.Floor;
    assert Pow10(15) == 1000000000000000 by {
      assert Pow10(5) == 100000;
      assert Pow10(10) == 10000000000;
    }
    DigitsLength(k, 15);
    NumeralSpelled(n.Floor);
  }

  lemma {:induction false} RepeatGap(w: Text, n: nat, loose: bool)
    requires Gap(w, loose)
    ensures Gap(Repeat(w, n), loose)
  {
    if n > 0 {
      RepeatGap(w, n - 1, loose);
    }
  }

  /** The spelling of a printable value is proper and means the value, and the parser has room for it. */
  lemma {:induction false} Means(v: Json, L: Layout, d: nat, loose: bool)
    requires Printable(v) && GapLayout(L, loose)
    ensures Proper(SyntaxOf(v, L, d), loose) && Fits(SyntaxOf(v, L, d)) && Value(SyntaxOf(v, L, d)) == v
    decreases v, 0
  {
    hide Gap, ProperElements, ProperPairs, FitElements, FitPairs, Items, Members, ElementsOf, PairsOf;
    match v
    case Number(n) =>
      NumeralMeans(n.Floor);
      NumeralFits(n);
    case String(s) => CharsMean(s);
    case Array(items) =>
      EmptyGap(loose);
      ElementsMean(items, L, d + 1, [], loose);
    case Object(members) =>
      RepeatGap(L.indent, d, loose);
      JoinedGap(L.afterOpen, Repeat(L.indent, d), loose);
      PairsMean(members, L, d + 1, d, L.afterOpen, loose);
    case _ =>
  }

  lemma EmptyGap(loose: bool)
    ensures Gap([], loose)
  {
  }

  lemma JoinedGap(a: Text, b: Text, loose: bool)
    requires Gap(a, loose) && Gap(b, loose)
    ensures Gap(a + b, loose)
  {
  }

  lemma {:induction false} ElementsMean(items: seq<Json>, L: Layout, d: nat, lead: Text, loose: bool)
    requires PrintableItems(items) && GapLayout(L, loose) && Gap(lead, loose)
    ensures
      var es := ElementsOf(items, L, d, lead);
      ProperElements(es, loose) && FitElements(es) && Items(es) == items
    decreases items, 1
  {
    hide Gap, Proper, Fits, Value, Printable;
    if items != [] {
      var es := ElementsOf(items, L, d, lead);
      Means(items[0], L, d, loose);
      ElementsMean(items[1..], L, d, L.afterComma, loose);
      EmptyGap(loose);
      assert es[1..] == ElementsOf(items[1..], L, d, L.afterComma);
      assert [items[0]] + items[1..] == items;
    }
  }

  lemma {:induction false} PairsMean(members: seq<Member>, L: Layout, d: nat, d0: nat, lead: Text, loose: bool)
    requires PrintableMembers(members) && GapLayout(L, loose) && Gap(lead, loose)
    ensures
      var ps := PairsOf(members, L, d, d0, lead);
      ProperPairs(ps, loose) && FitPairs(ps) && JsonText.Members(ps) == members
    decreases members, 1
  {
    hide Gap, Proper, Fits, Value, Printable, ProperChars, CharsBytes, Repeat;
    if members != [] {
      var ps := PairsOf(members, L, d, d0, lead);
      Means(members[0].value, L, d, loose);
      CharsMean(members[0].key);
      PairsMean(members[1..], L, d, d0, L.afterMember, loose);
      EmptyGap(loose);
      RepeatGap(L.indent, d, loose);
      RepeatGap(L.indent, d0, loose);
      JoinedGap(lead, Repeat(L.indent, d), loose);
      JoinedGap(L.afterMember, Repeat(L.indent, d0), loose);
      assert ps[1..] == PairsOf(members[1..], L, d, d0, L.afterMember);
      assert [members[0]] + members[1..] == members;
    }
  }

  /** What is printed denotes the value, in any layout of JSON's own blanks. */
  lemma RenderDenotes(v: Json, L: Layout, d: nat)
    requires Printable(v) && GapLayout(L, false)
    ensures Denotes(Render(v, L, d), v) && DenotesWithin(Render(v, L, d), v)
  {
    hide Render, Printable, Spell, Value, Proper, Fits, SyntaxOf, GapLayout;
    Spelled(v, L, d);
    Means(v, L, d, false);
    assert Spell(SyntaxOf(v, L, d)) == Render(v, L, d);
  }

  /** Both layouts the printer uses consist of JSON's own blanks. */
  lemma PrinterLayouts(format: bool)
    ensures GapLayout(LayoutOf(format), false) && GapLayout(LayoutOf(format), true)
  {
  }

  // ---- there and back --------------------------------------------------------------------------------

  /** The parser's answer on a printed value: the value itself when it is not nested too
      deeply, and failure otherwise. */
  lemma ParseRendered(v: Json, L: Layout, d: nat, depth: nat, rest: Text)
    requires Printable(v) && GapLayout(L, true) && Boundary(rest) && depth <= NESTING_LIMIT
    ensures ParseValue(Render(v, L, d) + rest, depth)
         == if depth + Height(v) <= NESTING_LIMIT then Ok(v, rest) else Fail
  {
    hide ParseValue, Render, Printable, Spell, Value, Proper, Fits, SyntaxOf, GapLayout, Height;
    Spelled(v, L, d);
    Means(v, L, d, true);
    ValueParses(SyntaxOf(v, L, d), true, depth, rest);
  }

  lemma ParseQuoted(s: Text, rest: Text)
    requires NulFree(s)
    ensures ParseString(Quote(s) + rest) == Ok(s, rest)
  {
    hide ParseString, CharsOf, ProperChars, CharsBytes;
    CharsMean(s);
    QuoteSpelled(s);
    StringParses(CharsOf(s), rest);
  }

  lemma ParsePrintedNumber(n: real, rest: Text)
    requires PrintableNumber(n) && Boundary(rest)
    ensures ParseNumber(NumberText(n) + rest) == Ok(n, rest)
  {
    hide ParseNumber, Digits, NumeralValue, ProperNumeral, SpellNumeral;
    NumeralMeans(n.Floor);
    NumeralFits(n);
    NumeralSpelled(n.Floor);
    var syn := NumeralOf(n.Floor);
    NumberParses(syn.minus, syn.whole, [], None, rest);
  }

  /** Printing a tree and parsing the text gives back the tree and consumes the whole text,
      exactly when the tree is not nested deeper than the parser allows; blanks after the
      text change nothing. */
  lemma PrintThenParse(v: Json, L: Layout, trail: Text)
    requires Printable(v) && GapLayout(L, true) && Gap(trail, true)
    ensures ParseWithOpts(Render(v, L, 0) + trail, true)
         == if Height(v) <= NESTING_LIMIT then Ok(v, [0]) else Fail
  {
    hide ParseWithOpts, Render, Printable, Spell, Value, Proper, Fits, SyntaxOf, GapLayout, Height, Gap;
    Spelled(v, L, 0);
    Means(v, L, 0, true);
    EmptyGap(true);
    TextParses(false, [], SyntaxOf(v, L, 0), trail, true);
    assert [] + ([] + Render(v, L, 0) + trail) == Render(v, L, 0) + trail;
  }

  // ---- what the parser returns ----------------------------------------------

  predicate NumbersPrintable(v: Json)
    decreases v, 0
  {
    match v
    case Number(n) => PrintableNumber(n)
    case Array(items) => forall i :: 0 <= i < |items| ==> NumbersPrintable(items[i])
    case Object(members) => forall i :: 0 <= i < |members| ==> NumbersPrintable(members[i].value)
    case _ => true
  }

  predicate GoodShape(v: Json, depth: nat) {
    depth + Height(v) <= NESTING_LIMIT && (NumbersPrintable(v) ==> Printable(v))
  }

  lemma ParsedScalarShape(s: Text, depth: nat)
    requires depth <= NESTING_LIMIT && !Head(s, OPEN_BRACKET) && !Head(s, OPEN_BRACE)
    ensures ParseValue(s, depth).Ok? ==> GoodShape(ParseValue(s, depth).value, depth)
  {
    ParsedStringShape(s);
  }

  /** Parsed strings and keys are C strings and parsed trees respect the nesting limit. */
  lemma {:induction false} ParsedValueShape(s: Text, depth: nat)
    requires depth <= NESTING_LIMIT
    ensures ParseValue(s, depth).Ok? ==> GoodShape(ParseValue(s, depth).value, depth)
    decreases |s|, 0
  {
    hide ParseValue, ParseItems, ParseMembers;
    if Head(s, OPEN_BRACKET) {
      if depth < NESTING_LIMIT {
        ParsedItemsShape(Skip(s[1..]), depth + 1);
      }
      ParseArrayBody(s[1..], depth);
      assert [OPEN_BRACKET] + s[1..] == s;
    } else if Head(s, OPEN_BRACE) {
      if depth < NESTING_LIMIT {
        ParsedMembersShape(Skip(s[1..]), depth + 1);
      }
      ParseObjectBody(s[1..], depth);
      assert [OPEN_BRACE] + s[1..] == s;
    } else {
      ParsedScalarShape(s, depth);
    }
  }

  lemma ParsedStringShape(s: Text)
    ensures ParseString(s).Ok? ==> NulFree(ParseString(s).value)
  {
    if ParseString(s).Ok? {
      var n := ClosingQuote(s[1..]).value;
      CStringIsNulFree(Decode(s[1..], n).value);
    }
  }

  lemma {:induction false} ParsedItemsShape(s: Text, depth: nat)
    requires depth <= NESTING_LIMIT
    ensures var r := ParseItems(s, depth); r.Ok? ==>
              depth + HeightOfItems(r.value) <= NESTING_LIMIT &&
                (NumbersPrintable(Array(r.value)) ==> PrintableItems(r.value))
    decreases |s|, 1
  {
    var first := ParseValue(Skip(s), depth);
    ParsedValueShape(Skip(s), depth);
    if first.Ok? {
      var next := Skip(first.rest);
      if Head(next, COMMA) {
        ParsedItemsShape(next[1..], depth);
      }
      assert [first.value][1..] == [];
    }
  }

  lemma {:induction false} ParsedMembersShape(s: Text, depth: nat)
    requires depth <= NESTING_LIMIT
    ensures var r := ParseMembers(s, depth); r.Ok? ==>
              depth + HeightOfMembers(r.value) <= NESTING_LIMIT &&
                (NumbersPrintable(Object(r.value)) ==> PrintableMembers(r.value))
    decreases |s|, 1
  {
    var start := Skip(s);
    var first := ParseMember(start, depth);
    if first.Ok? {
      ParsedStringShape(start);
      ParsedValueShape(Skip(Skip(ParseString(start).rest)[1..]), depth);
      var next := Skip(first.rest);
      if Head(next, COMMA) {
        ParsedMembersShape(next[1..], depth);
      }
      assert [first.value][1..] == [];
    }
  }

  /** Every text the parser accepts can be reprinted in any blank layout without changing
      the tree it stands for. */
  lemma ReprintKeepsTree(text: Text, strict: bool, L: Layout)
    requires GapLayout(L, true)
    requires ParseWithOpts(text, strict).Ok? && NumbersPrintable(ParseWithOpts(text, strict).value)
    ensures var v := ParseWithOpts(text, strict).value; ParseWithOpts(Render(v, L, 0), true) == Ok(v, [0])
  {
    var v := ParseWithOpts(text, strict).value;
    ParsedValueShape(Skip(SkipBom(text + [0])), 0);
    PrintThenParse(v, L, []);
    assert Render(v, L, 0) + [] == Render(v, L, 0);
  }

  /** An array in an array, n deep. */
  function Nested(n: nat): Json {
    if n == 0 then Null else Array([Nested(n - 1)])
  }

  lemma {:induction false} NestedHeight(n: nat)
    ensures Height(Nested(n)) == n && Printable(Nested(n))
  {
    if n > 0 {
      NestedHeight(n - 1);
    }
  }

  /** A tree 1000 levels deep is read back; one level more is printed and then refused. */
  lemma NestedAtLimit(n: nat, L: Layout)
    requires GapLayout(L, true)
    ensures n == 1000 ==> ParseWithOpts(Render(Nested(n), L, 0), true) == Ok(Nested(n), [0])
    ensures n == 1001 ==> ParseWithOpts(Render(Nested(n), L, 0), true) == Fail
  {
    hide Render, ParseWithOpts, Nested, Height, Printable;
    NestedHeight(n);
    PrintThenParse(Nested(n), L, []);
    assert Render(Nested(n), L, 0) + [] == Render(Nested(n), L, 0);
  }
}
