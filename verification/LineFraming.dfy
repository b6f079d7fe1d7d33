/** The server's one-line messages: a printed tree without its newlines, and one at the end. */
module LineFraming {
  import opened Bytes
  import opened JsonTree
  import opened JsonGrammar
  import RoundTrip

  /** The printer's layout with the newlines taken out. */
  const FRAMED := Layout([SPACE], [], [TAB], [TAB], [])

  function WithoutNewlines(s: Text): (r: Text)
    ensures |r| <= |s| && forall i :: 0 <= i < |r| ==> r[i] != NEWLINE
  {
    if s == [] then [] else (if s[0] == NEWLINE then [] else [s[0]]) + WithoutNewlines(s[1..])
  }

  function Newlines(s: Text): nat {
    if s == [] then 0 else (if s[0] == NEWLINE then 1 else 0) + Newlines(s[1..])
  }

  lemma {:induction false} FilterLength(s: Text)
    ensures |WithoutNewlines(s)| + Newlines(s) == |s|
  {
    if s != [] {
      FilterLength(s[1..]);
    }
  }

  lemma {:induction false} FilterJoin(a: Text, b: Text)
    ensures WithoutNewlines(a + b) == WithoutNewlines(a) + WithoutNewlines(b)
    ensures Newlines(a + b) == Newlines(a) + Newlines(b)
  {
    if a == [] {
      assert a + b == b;
    } else {
      assert (a + b)[1..] == a[1..] + b;
      FilterJoin(a[1..], b);
    }
  }

  lemma {:induction false} FilterNothing(s: Text)
    requires forall i :: 0 <= i < |s| ==> s[i] != NEWLINE
    ensures WithoutNewlines(s) == s && Newlines(s) == 0
  {
    if s != [] {
      FilterNothing(s[1..]);
    }
  }

  /** process_json_format: the buffer has exactly the length of the input, so a line break
      has to be dropped for the new one and another for the NUL. Otherwise the last write does not
      fit the buffer. */
  method ProcessJsonFormat(str: Text) returns (fits: bool, ret: array<byte>)
    requires NulFree(str)
    ensures fresh(ret) && ret.Length == |str|
    ensures fits <==> Newlines(str) >= 2
    ensures fits ==> var line := WithoutNewlines(str) + [NEWLINE];
                     |line| < ret.Length && ret[..|line|] == line && ret[|line|] == 0
  {
    var len := |str|;
    ret := new byte[len];
    var i, j: nat := 0, 0;
    FilterLength(str);
    while j < len
      invariant 0 <= j <= len && i == |WithoutNewlines(str[..j])|
      invariant i <= |WithoutNewlines(str)|
      invariant ret[..i] == WithoutNewlines(str[..j])
    {
      assert str[..j + 1] == str[..j] + [str[j]];
      FilterJoin(str[..j], [str[j]]);
      assert str == str[..j + 1] + str[j + 1..];
      FilterJoin(str[..j + 1], str[j + 1..]);
      ghost var done := ret[..i];
      if str[j] != NEWLINE {
        ret[i] := str[j];
        assert ret[..i + 1] == done + [str[j]];
        i := i + 1;
      }
      j := j + 1;
    }
    assert str[..len] == str;
    if i + 1 >= len {
      return false, ret;
    }
    fits := true;
    ret[i] := NEWLINE;
    ret[i + 1] := 0;
    assert ret[..i + 1] == WithoutNewlines(str) + [NEWLINE];
  }

  // ---- newlines stand between tokens only ------------------------------------

  lemma EscapeByteFiltered(b: byte)
    ensures WithoutNewlines(EscapeByte(b)) == EscapeByte(b) && Newlines(EscapeByte(b)) == 0
  {
    FilterNothing(EscapeByte(b));
  }

  lemma {:induction false} EscapeFiltered(s: Text)
    ensures WithoutNewlines(Escape(s)) == Escape(s) && Newlines(Escape(s)) == 0
  {
    if s != [] {
      EscapeByteFiltered(s[0]);
      EscapeFiltered(s[1..]);
      FilterJoin(EscapeByte(s[0]), Escape(s[1..]));
    }
  }

  lemma QuoteFiltered(s: Text)
    ensures WithoutNewlines(Quote(s)) == Quote(s) && Newlines(Quote(s)) == 0
  {
    EscapeFiltered(s);
    FilterJoin([QUOTE], Escape(s));
    FilterJoin([QUOTE] + Escape(s), [QUOTE]);
  }

  lemma {:induction false} IndentFiltered(n: nat)
    ensures WithoutNewlines(Repeat([TAB], n)) == Repeat([TAB], n) && Newlines(Repeat([TAB], n)) == 0
  {
    if n > 0 {
      IndentFiltered(n - 1);
      FilterJoin([TAB], Repeat([TAB], n - 1));
    }
  }

  /** How many newlines a formatted tree prints: one behind each opening brace and one
      behind each member. */
  function LineBreaks(v: Json): nat
    decreases v, 0
  {
    match v
    case Array(items) => LineBreaksOfItems(items)
    case Object(members) => 1 + LineBreaksOfMembers(members)
    case _ => 0
  }

  function LineBreaksOfItems(items: seq<Json>): nat
    decreases items, 1
  {
    if items == [] then 0 else LineBreaks(items[0]) + LineBreaksOfItems(items[1..])
  }

  function LineBreaksOfMembers(members: seq<Member>): nat
    decreases members, 1
  {
    if members == [] then 0 else LineBreaks(members[0].value) + 1 + LineBreaksOfMembers(members[1..])
  }

  predicate Framed(formatted: Text, framed: Text, breaks: nat) {
    WithoutNewlines(formatted) == framed && Newlines(formatted) == breaks
  }

  lemma FramedJoin(a: Text, a': Text, m: nat, b: Text, b': Text, n: nat)
    requires Framed(a, a', m) && Framed(b, b', n)
    ensures Framed(a + b, a' + b', m + n)
  {
    FilterJoin(a, b);
  }

  lemma FramedMark(b: byte)
    requires b != NEWLINE
    ensures Framed([b], [b], 0)
  {
  }

  lemma {:induction false} RenderFramed(v: Json, d: nat)
    ensures Framed(Render(v, FORMATTED, d), Render(v, FRAMED, d), LineBreaks(v))
    decreases v, 0
  {
    match v
    case Null => FilterNothing(NULL_TEXT);
    case False => FilterNothing(FALSE_TEXT);
    case True => FilterNothing(TRUE_TEXT);
    case Number(n) => FilterNothing(NumberText(n));
    case String(s) => QuoteFiltered(s);
    case Array(items) =>
      var f, g := RenderItems(items, FORMATTED, d + 1), RenderItems(items, FRAMED, d + 1);
      ItemsFramed(items, d + 1);
      FramedMark(OPEN_BRACKET);
      FramedMark(CLOSE_BRACKET);
      FramedJoin([OPEN_BRACKET], [OPEN_BRACKET], 0, f, g, LineBreaks(v));
      FramedJoin([OPEN_BRACKET] + f, [OPEN_BRACKET] + g, LineBreaks(v), [CLOSE_BRACKET], [CLOSE_BRACKET], 0);
    case Object(members) =>
      var f, g := RenderMembers(members, FORMATTED, d + 1), RenderMembers(members, FRAMED, d + 1);
      var n := LineBreaksOfMembers(members);
      var tabs := Repeat([TAB], d);
      MembersFramed(members, d + 1);
      IndentFiltered(d);
      FramedMark(OPEN_BRACE);
      FramedMark(CLOSE_BRACE);
      FramedJoin([OPEN_BRACE], [OPEN_BRACE], 0, [NEWLINE], [], 1);
      FramedJoin([OPEN_BRACE] + [NEWLINE], [OPEN_BRACE] + [], 1, f, g, n);
      FramedJoin([OPEN_BRACE] + [NEWLINE] + f, [OPEN_BRACE] + [] + g, 1 + n, tabs, tabs, 0);
      FramedJoin([OPEN_BRACE] + [NEWLINE] + f + tabs, [OPEN_BRACE] + [] + g + tabs, 1 + n, [CLOSE_BRACE],
        [CLOSE_BRACE], 0);
  }

  lemma {:induction false} ItemsFramed(items: seq<Json>, d: nat)
    ensures Framed(RenderItems(items, FORMATTED, d), RenderItems(items, FRAMED, d), LineBreaksOfItems(items))
    decreases items, 1
  {
    if items != [] {
      var f, g := Render(items[0], FORMATTED, d), Render(items[0], FRAMED, d);
      var s := Separator(|items| > 1, [SPACE]);
      RenderFramed(items[0], d);
      ItemsFramed(items[1..], d);
      FilterNothing(s);
      FramedJoin(f, g, LineBreaks(items[0]), s, s, 0);
      FramedJoin(f + s, g + s, LineBreaks(items[0]), RenderItems(items[1..], FORMATTED, d),
        RenderItems(items[1..], FRAMED, d), LineBreaksOfItems(items[1..]));
    }
  }

  lemma {:induction false} MemberFramed(m: Member, d: nat)
    ensures Framed(RenderMember(m, FORMATTED, d), RenderMember(m, FRAMED, d), LineBreaks(m.value))
    decreases m, 1
  {
    var tabs, key := Repeat([TAB], d), Quote(m.key);
    IndentFiltered(d);
    QuoteFiltered(m.key);
    RenderFramed(m.value, d);
    FramedMark(COLON);
    FramedMark(TAB);
    FramedJoin(tabs, tabs, 0, key, key, 0);
    FramedJoin(tabs + key, tabs + key, 0, [COLON], [COLON], 0);
    FramedJoin(tabs + key + [COLON], tabs + key + [COLON], 0, [TAB], [TAB], 0);
    FramedJoin(tabs + key + [COLON] + [TAB], tabs + key + [COLON] + [TAB], 0,
      Render(m.value, FORMATTED, d), Render(m.value, FRAMED, d), LineBreaks(m.value));
  }

  lemma {:induction false} MembersFramed(members: seq<Member>, d: nat)
    ensures Framed(RenderMembers(members, FORMATTED, d), RenderMembers(members, FRAMED, d),
            LineBreaksOfMembers(members))
    decreases members, 2
  {
    if members != [] {
      var f, g := RenderMember(members[0], FORMATTED, d), RenderMember(members[0], FRAMED, d);
      var n := LineBreaks(members[0].value);
      var s := Separator(|members| > 1, []);
      MemberFramed(members[0], d);
      MembersFramed(members[1..], d);
      FilterNothing(s);
      FramedJoin(s, s, 0, [NEWLINE], [], 1);
      FramedJoin(f, g, n, s + [NEWLINE], s + [], 1);
      FramedJoin(f + (s + [NEWLINE]), g + (s + []), n + 1, RenderMembers(members[1..], FORMATTED, d),
        RenderMembers(members[1..], FRAMED, d), LineBreaksOfMembers(members[1..]));
    }
  }

  /** The message a tree is sent as: one line, with one newline, at its end, that parses
      back to the tree. */
  lemma MessageKeepsTree(v: Json)
    requires Printable(v) && Height(v) <= NESTING_LIMIT
    ensures var line := WithoutNewlines(Render(v, FORMATTED, 0)) + [NEWLINE];
            Newlines(line) == 1 && line[|line| - 1] == NEWLINE && ParseWithOpts(line, true) == Ok(v, [0])
  {
    hide Render, WithoutNewlines, ParseWithOpts;
    var body := WithoutNewlines(Render(v, FORMATTED, 0));
    RenderFramed(v, 0);
    FilterNothing(body);
    FilterJoin(body, [NEWLINE]);
    RoundTrip.PrintThenParse(v, FRAMED, [NEWLINE]);
  }

  /** The message fits the bytes that are allocated for it exactly when the printed text
      breaks at least two lines, as every object with a member does. */
  lemma MessageFits(v: Json)
    ensures var text := Render(v, FORMATTED, 0);
            |WithoutNewlines(text) + [NEWLINE]| + 1 <= |text| <==> LineBreaks(v) >= 2
    ensures v.Object? && v.members != [] ==> LineBreaks(v) >= 2
    ensures v == Object([]) ==> LineBreaks(v) == 1
  {
    RenderFramed(v, 0);
    FilterLength(Render(v, FORMATTED, 0));
  }
}
