/** The blanks a tree is printed with: none at all, or one line for every member. */
module PrintLayout {
  import opened Bytes
  import opened Decimal
  import opened JsonText
  import opened JsonTree
  import opened RoundTrip

  function Tabs(n: nat): Text {
    seq(n, i => 9)
  }

  /** Only what must be escaped is, with the short form where there is one and small letters elsewhere. */
  predicate Terse(chars: seq<Char>) {
    forall i :: 0 <= i < |chars| ==> TerseChar(chars[i])
  }

  predicate TerseChar(c: Char) {
    match c
    case Plain(_) => true
    case Short(letter, _) => letter != 47
    case Long(digits, bytes) =>
      && |bytes| == 1 && bytes[0] < 32 && bytes[0] !in {8, 9, 10, 12, 13}
      && forall i :: 0 <= i < |digits| ==> digits[i] <= 57 || digits[i] >= 97
  }

  /** The gaps of a value at nesting depth d: a blank behind a comma in an array, a line with d + 1
      tabs for each member, a tab behind the colon; or nothing at all. */
  predicate Arranged(syn: Syntax, formatted: bool, d: nat)
    decreases syn, 0
  {
    match syn
    case Numeral(minus, whole, fraction, power) => fraction == [] && power.None? && (minus ==> whole != [48])
    case Quoted(chars) => Terse(chars)
    case List(gap, elements) => gap == [] && ArrangedElements(elements, formatted, d + 1, [])
    case Record(gap, pairs) => gap == Line(formatted, d) && ArrangedPairs(pairs, formatted, d + 1)
    case _ => true
  }

  /** A new line with n tabs, if the text is formatted. */
  function Line(formatted: bool, n: nat): Text {
    if formatted then [10] + Tabs(n) else []
  }

  predicate ArrangedElements(elements: seq<Element>, formatted: bool, d: nat, before: Text)
    decreases elements, 1
  {
    elements == [] ||
    var e := elements[0];
    && e.before == before && e.after == [] && Arranged(e.value, formatted, d)
    && ArrangedElements(elements[1..], formatted, d, if formatted then [32] else [])
  }

  predicate ArrangedPairs(pairs: seq<Pair>, formatted: bool, d: nat)
    requires d > 0
    decreases pairs, 1
  {
    pairs == [] ||
    var p := pairs[0];
    && Terse(p.name) && p.before == Line(formatted, d) && p.afterName == []
    && p.beforeValue == (if formatted then [9] else [])
    && p.after == (if |pairs| == 1 then Line(formatted, d - 1) else [])
    && Arranged(p.value, formatted, d) && ArrangedPairs(pairs[1..], formatted, d)
  }

  // ---- the printer's layouts -----------------------------------------------------------------

  lemma {:induction false} RepeatedTab(n: nat)
    ensures Repeat([TAB], n) == Tabs(n)
  {
    if n > 0 {
      RepeatedTab(n - 1);
      assert [TAB] + Tabs(n - 1) == Tabs(n);
    }
  }

  lemma {:induction false} RepeatedNothing(n: nat)
    ensures Repeat([], n) == []
  {
    if n > 0 {
      RepeatedNothing(n - 1);
    }
  }

  lemma LineStart(formatted: bool, n: nat)
    ensures var L := LayoutOf(formatted);
            L.afterOpen + Repeat(L.indent, n) == L.afterMember + Repeat(L.indent, n) == Line(formatted, n)
  {
    if formatted {
      RepeatedTab(n);
    } else {
      RepeatedNothing(n);
    }
  }

  lemma {:induction false} CharsTerse(s: Text)
    ensures Terse(CharsOf(s))
  {
    hide CharOf;
    if s != [] {
      CharsTerse(s[1..]);
      CharTerse(s[0]);
    }
  }

  lemma CharTerse(b: byte)
    ensures TerseChar(CharOf(b))
  {
  }

  lemma NumeralArranged(n: int)
    ensures n < 0 ==> NumeralOf(n).whole != [48]
  {
    if n < 0 {
      DigitsRoundTrip(-n);
    }
  }

  lemma {:induction false} SyntaxArranged(v: Json, formatted: bool, d: nat)
    ensures Arranged(SyntaxOf(v, LayoutOf(formatted), d), formatted, d)
    decreases v, 0
  {
    hide ElementsOf, PairsOf, ArrangedElements, ArrangedPairs, LayoutOf, Line;
    match v
    case Number(n) => NumeralArranged(n.Floor);
    case String(s) => CharsTerse(s);
    case Array(items) => ElementsArranged(items, formatted, d + 1, []);
    case Object(members) =>
      LineStart(formatted, d);
      PairsArranged(members, formatted, d + 1, LayoutOf(formatted).afterOpen);
    case _ =>
  }

  lemma {:induction false} ElementsArranged(items: seq<Json>, formatted: bool, d: nat, lead: Text)
    ensures ArrangedElements(ElementsOf(items, LayoutOf(formatted), d, lead), formatted, d, lead)
    decreases items, 1
  {
    hide SyntaxOf, Arranged;
    if items != [] {
      SyntaxArranged(items[0], formatted, d);
      ElementsArranged(items[1..], formatted, d, LayoutOf(formatted).afterComma);
    }
  }

  lemma {:induction false} PairsArranged(members: seq<Member>, formatted: bool, d: nat, lead: Text)
    requires d > 0 && lead == LayoutOf(formatted).afterOpen
    ensures ArrangedPairs(PairsOf(members, LayoutOf(formatted), d, d - 1, lead), formatted, d)
    decreases members, 1
  {
    hide SyntaxOf, Arranged, CharsOf, Terse, Repeat, Line;
    if members != [] {
      SyntaxArranged(members[0].value, formatted, d);
      CharsTerse(members[0].key);
      LineStart(formatted, d);
      LineStart(formatted, d - 1);
      PairsArranged(members[1..], formatted, d, lead);
      assert |PairsOf(members[1..], LayoutOf(formatted), d, d - 1, lead)| == 0 <==> |members| == 1;
    }
  }

  /** A printed tree spells its value with exactly these gaps. */
  lemma PrintArranged(v: Json, formatted: bool, d: nat) returns (syn: Syntax)
    requires Printable(v)
    ensures Spell(syn) == Render(v, LayoutOf(formatted), d)
    ensures Proper(syn, false) && Value(syn) == v && Arranged(syn, formatted, d)
  {
    hide Spell, Render, Proper, Value, Arranged, SyntaxOf, LayoutOf, Printable;
    syn := SyntaxOf(v, LayoutOf(formatted), d);
    PrinterLayouts(formatted);
    Spelled(v, LayoutOf(formatted), d);
    Means(v, LayoutOf(formatted), d, false);
    SyntaxArranged(v, formatted, d);
  }
}
