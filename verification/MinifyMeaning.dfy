/** Minifying an accepted text keeps the tree it stands for, and doing it again changes nothing. */
module MinifyMeaning {
  import opened Bytes
  import opened JsonTree
  import opened JsonGrammar
  import opened JsonSuffix
  import opened Minify
  import ParseMeaning

  /** Strings are closed and no slash stands outside a string: the shape of accepted texts. */
  predicate Tidy(s: Text)
    decreases |s|
  {
    if s == [] then false
    else if s[0] == 0 then true
    else if s[0] == SLASH then false
    else if s[0] == QUOTE then ClosingQuote(s[1..]).Some? && Tidy(s[ClosingQuote(s[1..]).value + 2..])
    else Tidy(s[1..])
  }

  lemma {:induction false} TidyClosed(s: Text)
    requires Tidy(s)
    ensures Closed(s)
    decreases |s|
  {
    if s[0] == QUOTE {
      TidyClosed(s[ClosingQuote(s[1..]).value + 2..]);
    } else if s[0] != 0 {
      TidyClosed(s[1..]);
    }
  }

  /** The minified form of a tidy text. */
  function Squeeze(s: Text): (m: Text)
    requires Tidy(s)
    ensures 0 < |m| <= |s|
  {
    TidyClosed(s);
    MinifyText(s)
  }

  predicate Plain(b: byte) {
    b != 0 && b != SLASH && b != QUOTE && !Dropped(b)
  }

  lemma SqueezeByte(s: Text)
    requires s != [] && s[0] != 0 && s[0] != SLASH && s[0] != QUOTE && Tidy(s[1..])
    ensures Tidy(s) && Squeeze(s) == if Dropped(s[0]) then Squeeze(s[1..]) else [s[0]] + Squeeze(s[1..])
  {
    TidyClosed(s);
  }

  lemma SqueezeString(s: Text)
    requires Head(s, QUOTE) && ClosingQuote(s[1..]).Some?
    requires Tidy(s[ClosingQuote(s[1..]).value + 2..])
    ensures var n := ClosingQuote(s[1..]).value + 2; Tidy(s) && Squeeze(s) == s[..n] + Squeeze(s[n..])
  {
    TidyClosed(s);
  }

  lemma {:induction false} SqueezePlain(s: Text, k: nat)
    requires k <= |s| && Tidy(s[k..]) && forall i :: 0 <= i < k ==> Plain(s[i])
    ensures Tidy(s) && Squeeze(s) == s[..k] + Squeeze(s[k..])
  {
    hide Tidy, Squeeze;
    if k == 0 {
      assert s[0..] == s;
    } else {
      assert s[1..][k - 1..] == s[k..];
      SqueezePlain(s[1..], k - 1);
      SqueezeByte(s);
      assert [s[0]] + s[1..][..k - 1] == s[..k];
    }
  }

  /** Skipping blanks and squeezing commute. */
  lemma {:induction false} SqueezeSkip(s: Text)
    requires Clean(s) && Tidy(Skip(s))
    ensures Tidy(s) && Skip(Squeeze(s)) == Squeeze(Skip(s)) && Clean(Skip(s))
  {
    if |s| > 1 && s[0] <= 32 {
      CleanTail(s, 1);
      SqueezeSkip(s[1..]);
      SqueezeByte(s);
      if !Dropped(s[0]) {
        assert ([s[0]] + Squeeze(s[1..]))[1..] == Squeeze(s[1..]);
      }
    } else {
      TidyClosed(s);
    }
  }

  lemma CleanTail(s: Text, k: nat)
    requires Clean(s) && k < |s|
    ensures Clean(s[k..]) && (k > 0 ==> s[0] != 0)
  {
    var t := s[k..];
    assert t[..|t| - 1] == s[..|s| - 1][k..];
    if k > 0 {
      assert s[0] == s[..|s| - 1][0];
    }
  }

  lemma CleanRemains(r: Text, s: Text)
    requires Clean(s) && Remains(r, s)
    ensures Clean(r)
  {
    CleanTail(s, |s| - |r|);
  }

  /** What the grammar lets follow a value. */
  predicate Follow(r: Text) {
    Head(Skip(r), COMMA) || Head(Skip(r), CLOSE_BRACKET) || Head(Skip(r), CLOSE_BRACE) || Head(Skip(r), 0)
  }

  lemma FollowNoNumber(r: Text)
    requires Clean(r) && Tidy(r) && Follow(r)
    ensures !IsNumberByte(r[0]) && !IsNumberByte(Squeeze(r)[0])
  {
    FollowTidySkip(r);
    SqueezeSkip(r);
    var f := Skip(r);
    TidyClosed(f);
  }

  lemma {:induction false} FollowTidySkip(r: Text)
    requires Clean(r) && Tidy(r)
    ensures Tidy(Skip(r))
  {
    if |r| > 1 && r[0] <= 32 {
      CleanTail(r, 1);
      FollowTidySkip(r[1..]);
    }
  }

  // ---- scalars --------------------------------------------------------------

  lemma StringKept(s: Text)
    requires ParseString(s).Ok? && Tidy(ParseString(s).rest)
    ensures Tidy(s) && Head(Squeeze(s), QUOTE)
    ensures ParseString(Squeeze(s)) == Ok(ParseString(s).value, Squeeze(ParseString(s).rest))
  {
    var n := ClosingQuote(s[1..]).value;
    var rest := s[n + 2..];
    SqueezeString(s);
    var m := Squeeze(s);
    assert m == s[..n + 2] + Squeeze(rest);
    assert m[1..][..n + 1] == s[1..][..n + 1];
    QuoteLocal(s[1..], m[1..], n);
    DecodeLocal(s[1..], m[1..], n);
    assert m[n + 2..] == Squeeze(rest);
  }

  lemma NumberKept(s: Text)
    requires Clean(s) && ParseNumber(s).Ok? && Tidy(ParseNumber(s).rest) && Follow(ParseNumber(s).rest)
    ensures Tidy(s) && Squeeze(s)[0] == s[0]
    ensures ParseNumber(Squeeze(s)) == Ok(ParseNumber(s).value, Squeeze(ParseNumber(s).rest))
  {
    hide Squeeze, Tidy, Remains, NumberRun, Clean;
    var run := NumberRun(s, NUMBER_CAPACITY);
    var rest := ParseNumber(s).rest;
    var k := |s| - |rest|;
    NumberRemains(s);
    CleanRemains(rest, s);
    FollowNoNumber(rest);
    assert rest == s[k..];
    assert k == run;
    SqueezePlain(s, k);
    ParseMeaning.NumberRunExact(s[..k], Squeeze(rest), NUMBER_CAPACITY);
    assert Squeeze(s)[..k] == s[..k];
    assert Squeeze(s)[k..] == Squeeze(rest);
  }

  lemma LiteralKept(s: Text, literal: Text)
    requires literal == NULL_TEXT || literal == FALSE_TEXT || literal == TRUE_TEXT
    requires StartsWith(s, literal) && Tidy(s[|literal|..])
    ensures Tidy(s) && StartsWith(Squeeze(s), literal)
    ensures Squeeze(s)[|literal|..] == Squeeze(s[|literal|..])
  {
    var k := |literal|;
    assert forall i :: 0 <= i < k ==> s[i] == s[..k][i] == literal[i];
    SqueezePlain(s, k);
    assert Squeeze(s)[..k] == literal;
  }

  lemma ScalarKept(s: Text, depth: nat)
    requires Clean(s) && !Head(s, OPEN_BRACKET) && !Head(s, OPEN_BRACE)
    requires ParseValue(s, depth).Ok? && Tidy(ParseValue(s, depth).rest) && Follow(ParseValue(s, depth).rest)
    ensures Tidy(s)
    ensures ParseValue(Squeeze(s), depth) == Ok(ParseValue(s, depth).value, Squeeze(ParseValue(s, depth).rest))
  {
    NoLiteralHead(s);
    if StartsWith(s, NULL_TEXT) {
      LiteralKept(s, NULL_TEXT);
    } else if StartsWith(s, FALSE_TEXT) {
      LiteralKept(s, FALSE_TEXT);
      NoLiteralHead(Squeeze(s));
      assert Squeeze(s)[..5][0] == Squeeze(s)[0];
    } else if StartsWith(s, TRUE_TEXT) {
      LiteralKept(s, TRUE_TEXT);
      NoLiteralHead(Squeeze(s));
      assert Squeeze(s)[..4][0] == Squeeze(s)[0];
    } else if Head(s, QUOTE) {
      StringKept(s);
      NoLiteralHead(Squeeze(s));
    } else {
      NumberKept(s);
      NoLiteralHead(Squeeze(s));
    }
  }

  // ---- values ---------------------------------------------------------------

  /** The squeezed text parses to the same value, and its rest is the squeezed rest. */
  lemma {:induction false} ValueKept(s: Text, depth: nat)
    requires Clean(s)
    requires ParseValue(s, depth).Ok? && Tidy(ParseValue(s, depth).rest) && Follow(ParseValue(s, depth).rest)
    ensures Tidy(s)
    ensures ParseValue(Squeeze(s), depth) == Ok(ParseValue(s, depth).value, Squeeze(ParseValue(s, depth).rest))
    decreases |s|, 1
  {
    if Head(s, OPEN_BRACKET) {
      ArrayKept(s, depth);
    } else if Head(s, OPEN_BRACE) {
      ObjectKept(s, depth);
    } else {
      ScalarKept(s, depth);
    }
  }

  /** A bracket, brace, comma or colon is copied, and the squeezed text goes on alike. */
  lemma MarkKept(s: Text, b: byte)
    requires Clean(s) && Head(s, b) && Plain(b) && b > 32 && Tidy(Skip(s[1..]))
    ensures Tidy(s) && Tidy(s[1..]) && Clean(s[1..]) && Clean(Skip(s[1..]))
    ensures Squeeze(s) == [b] + Squeeze(s[1..]) && Skip(Squeeze(s[1..])) == Squeeze(Skip(s[1..]))
    ensures Squeeze(Skip(s[1..]))[0] == Skip(s[1..])[0]
  {
    CleanTail(s, 1);
    SqueezeSkip(s[1..]);
    SqueezeByte(s);
    HeadKept(s[1..]);
  }

  lemma HeadKept(s: Text)
    requires Clean(s) && Tidy(Skip(s))
    ensures Clean(Skip(s)) && Squeeze(Skip(s))[0] == Skip(s)[0]
  {
    SqueezeSkip(s);
    TidyClosed(Skip(s));
    SkipEnds(s);
  }

  lemma {:induction false} SkipEnds(s: Text)
    requires Clean(s)
    ensures Skip(s) == [0] || (Skip(s) != [] && Skip(s)[0] > 32)
  {
    if |s| > 1 && s[0] <= 32 {
      CleanTail(s, 1);
      SkipEnds(s[1..]);
    }
  }

  lemma CleanSkip(s: Text)
    requires Clean(s)
    ensures Clean(Skip(s))
  {
    SkipRemains(s);
    if Skip(s) != s {
      CleanRemains(Skip(s), s);
    }
  }

  lemma {:induction false} ArrayKept(s: Text, depth: nat)
    requires Clean(s) && Head(s, OPEN_BRACKET)
    requires ParseValue(s, depth).Ok? && Tidy(ParseValue(s, depth).rest)
    ensures Tidy(s)
    ensures ParseValue(Squeeze(s), depth) == Ok(ParseValue(s, depth).value, Squeeze(ParseValue(s, depth).rest))
    decreases |s|, 0
  {
    hide ParseValue, ParseItems, Skip, Tidy, Squeeze, Clean;
    var body := Skip(s[1..]);
    assert [OPEN_BRACKET] + s[1..] == s;
    ParseMeaning.ParseArrayBody(s[1..], depth);
    CleanTail(s, 1);
    CleanSkip(s[1..]);
    if Head(body, CLOSE_BRACKET) {
      SqueezeByte(body);
      assert Squeeze(body)[1..] == Squeeze(body[1..]);
    } else {
      ItemsKept(body, depth + 1);
    }
    MarkKept(s, OPEN_BRACKET);
    ParseMeaning.ParseArrayBody(Squeeze(s[1..]), depth);
  }

  lemma {:induction false} ObjectKept(s: Text, depth: nat)
    requires Clean(s) && Head(s, OPEN_BRACE)
    requires ParseValue(s, depth).Ok? && Tidy(ParseValue(s, depth).rest)
    ensures Tidy(s)
    ensures ParseValue(Squeeze(s), depth) == Ok(ParseValue(s, depth).value, Squeeze(ParseValue(s, depth).rest))
    decreases |s|, 0
  {
    hide ParseValue, ParseMembers, Skip, Tidy, Squeeze, Clean;
    var body := Skip(s[1..]);
    assert [OPEN_BRACE] + s[1..] == s;
    ParseMeaning.ParseObjectBody(s[1..], depth);
    CleanTail(s, 1);
    CleanSkip(s[1..]);
    if Head(body, CLOSE_BRACE) {
      SqueezeByte(body);
      assert Squeeze(body)[1..] == Squeeze(body[1..]);
    } else {
      MembersKept(body, depth + 1);
    }
    MarkKept(s, OPEN_BRACE);
    ParseMeaning.ParseObjectBody(Squeeze(s[1..]), depth);
  }

  lemma {:induction false} ItemsKept(s: Text, depth: nat)
    requires Clean(s) && ParseItems(s, depth).Ok? && Tidy(ParseItems(s, depth).rest)
    ensures Tidy(s)
    ensures ParseItems(Squeeze(s), depth) == Ok(ParseItems(s, depth).value, Squeeze(ParseItems(s, depth).rest))
    decreases |s|, 2
  {
    var start := Skip(s);
    var after := ParseValue(start, depth).rest;
    var next := Skip(after);
    CleanSkip(s);
    ValueRemains(start, depth);
    CleanRemains(after, start);
    CleanSkip(after);
    if Head(next, COMMA) {
      CleanTail(next, 1);
      ItemsKept(next[1..], depth);
    }
    SqueezeByte(next);
    SqueezeSkip(after);
    ValueKept(start, depth);
    SqueezeSkip(s);
    ItemsStep(Squeeze(s), depth, ParseValue(start, depth).value, Squeeze(after), Squeeze(next[1..]), next[0]);
  }

  /** How the elements loop goes on after one element. */
  lemma ItemsStep(s: Text, depth: nat, item: Json, after: Text, tail: Text, mark: byte)
    requires ParseValue(Skip(s), depth) == Ok(item, after) && Skip(after) == [mark] + tail
    ensures mark == COMMA ==>
              ParseItems(s, depth) ==
              match ParseItems(tail, depth) case Fail => Fail case Ok(items, rest) => Ok([item] + items, rest)
    ensures mark == CLOSE_BRACKET ==> ParseItems(s, depth) == Ok([item], tail)
  {
    assert ([mark] + tail)[1..] == tail;
  }

  lemma {:induction false} MembersKept(s: Text, depth: nat)
    requires Clean(s) && ParseMembers(s, depth).Ok? && Tidy(ParseMembers(s, depth).rest)
    ensures Tidy(s)
    ensures ParseMembers(Squeeze(s), depth) == Ok(ParseMembers(s, depth).value, Squeeze(ParseMembers(s, depth).rest))
    decreases |s|, 3
  {
    var start := Skip(s);
    var after := ParseMember(start, depth).rest;
    var next := Skip(after);
    CleanSkip(s);
    MemberRemains(start, depth);
    CleanRemains(after, start);
    CleanSkip(after);
    if Head(next, COMMA) {
      CleanTail(next, 1);
      MembersKept(next[1..], depth);
    }
    SqueezeByte(next);
    SqueezeSkip(after);
    MemberKept(start, depth);
    SqueezeSkip(s);
    MembersStep(Squeeze(s), depth, ParseMember(start, depth).value, Squeeze(after), Squeeze(next[1..]), next[0]);
  }

  lemma MembersStep(s: Text, depth: nat, m: Member, after: Text, tail: Text, mark: byte)
    requires ParseMember(Skip(s), depth) == Ok(m, after) && Skip(after) == [mark] + tail
    ensures mark == COMMA ==>
              ParseMembers(s, depth) ==
              match ParseMembers(tail, depth) case Fail => Fail case Ok(members, rest) => Ok([m] + members, rest)
    ensures mark == CLOSE_BRACE ==> ParseMembers(s, depth) == Ok([m], tail)
  {
    assert ([mark] + tail)[1..] == tail;
  }

  lemma {:induction false} MemberKept(s: Text, depth: nat)
    requires Clean(s)
    requires ParseMember(s, depth).Ok? && Tidy(ParseMember(s, depth).rest) && Follow(ParseMember(s, depth).rest)
    ensures Tidy(s)
    ensures ParseMember(Squeeze(s), depth) == Ok(ParseMember(s, depth).value, Squeeze(ParseMember(s, depth).rest))
    decreases |s|, 2
  {
    hide ParseValue, ParseString, Squeeze, Tidy, Clean, Remains;
    var afterKey := ParseString(s).rest;
    var colon := Skip(afterKey);
    var value := Skip(colon[1..]);
    StringRemains(s);
    CleanRemains(afterKey, s);
    CleanSkip(afterKey);
    CleanTail(colon, 1);
    CleanSkip(colon[1..]);
    ValueKept(value, depth);
    MarkKept(colon, COLON);
    SqueezeSkip(afterKey);
    StringKept(s);
    assert ([COLON] + Squeeze(colon[1..]))[1..] == Squeeze(colon[1..]);
  }

  // ---- the whole text -------------------------------------------------------

  /** A second pass finds nothing more to squeeze. */
  lemma {:induction false} SqueezeTwice(s: Text)
    requires Clean(s) && Tidy(s)
    ensures Clean(Squeeze(s)) && Tidy(Squeeze(s)) && Squeeze(Squeeze(s)) == Squeeze(s)
    decreases |s|
  {
    if s[0] == QUOTE {
      var n := ClosingQuote(s[1..]).value + 2;
      CleanTail(s, n);
      SqueezeTwice(s[n..]);
      SqueezeString(s);
      var m := s[..n] + Squeeze(s[n..]);
      assert m[1..][..n - 1] == s[1..][..n - 1];
      QuoteLocal(s[1..], m[1..], n - 2);
      assert m[n..] == Squeeze(s[n..]) && m[..n] == s[..n];
      SqueezeString(m);
      CleanJoin(s, n, Squeeze(s[n..]));
    } else if s[0] != 0 {
      CleanTail(s, 1);
      SqueezeTwice(s[1..]);
      SqueezeByte(s);
      if !Dropped(s[0]) {
        var m := [s[0]] + Squeeze(s[1..]);
        assert m[1..] == Squeeze(s[1..]);
        SqueezeByte(m);
        CleanJoin(s, 1, Squeeze(s[1..]));
        assert s[..1] == [s[0]];
      }
    } else {
      TidyClosed(s);
      TidyClosed([0]);
    }
  }

  lemma CleanJoin(s: Text, n: nat, t: Text)
    requires Clean(s) && n < |s| && Clean(t)
    ensures Clean(s[..n] + t)
  {
    var m := s[..n] + t;
    assert m[..|m| - 1] == s[..|s| - 1][..n] + t[..|t| - 1];
  }

  /** A byte order mark stays where it is. */
  lemma BomStays(s: Text)
    requires Clean(s) && SkipBom(s) != s && Tidy(SkipBom(s)) && |Squeeze(SkipBom(s))| >= 2
    ensures Tidy(s) && SkipBom(Squeeze(s)) == Squeeze(SkipBom(s))
  {
    var m := Squeeze(s[3..]);
    assert forall i :: 0 <= i < 3 ==> s[i] == s[..3][i] == BOM[i];
    SqueezePlain(s, 3);
    assert Squeeze(s) == BOM + m && (BOM + m)[..3] == BOM && (BOM + m)[3..] == m;
  }

  /** No byte order mark appears where there was none. */
  lemma NoBomAppears(s: Text, depth: nat)
    requires Clean(s) && Tidy(s) && Tidy(Skip(s)) && ParseValue(Skip(s), depth).Ok?
    requires Skip(Squeeze(s)) != [] && Skip(s) != [] && Skip(Squeeze(s))[0] == Skip(s)[0]
    ensures SkipBom(Squeeze(s)) == Squeeze(s)
  {
    var m := Squeeze(s);
    if StartsWith(m, BOM) {
      assert m[0] == m[..3][0] == BOM[0];
      NoLiteralHead(Skip(s));
    }
  }

  lemma TextKept(s: Text)
    requires Clean(s) && ParseValue(Skip(SkipBom(s)), 0).Ok?
    requires Head(Skip(ParseValue(Skip(SkipBom(s)), 0).rest), 0)
    ensures Tidy(s)
    ensures ParseValue(Skip(SkipBom(Squeeze(s))), 0).Ok?
    ensures var r := ParseValue(Skip(SkipBom(Squeeze(s))), 0);
            r.value == ParseValue(Skip(SkipBom(s)), 0).value && Skip(r.rest) == [0]
  {
    var t := SkipBom(s);
    var start := Skip(t);
    var rest := ParseValue(start, 0).rest;
    if t != s { CleanTail(s, 3); }
    CleanSkip(t);
    ValueRemains(start, 0);
    CleanRemains(rest, start);
    CleanSkip(rest);
    assert Skip(rest) == [0] by {
      if |Skip(rest)| > 1 { CleanTail(Skip(rest), 1); }
    }
    SqueezeSkip(rest);
    ValueKept(start, 0);
    SqueezeSkip(t);
    HeadKept(t);
    TidyClosed([0]);
    if t != s {
      SqueezeTwice(t);
      BomStays(s);
    } else {
      NoBomAppears(s, 0);
    }
    assert Squeeze([0]) == [0];
  }

  /** An accepted text may be minified, still stands for the same tree afterwards, and is
      then a fixed point. */
  lemma MinifyKeepsTree(text: Text)
    requires NulFree(text) && ParseWithOpts(text, true).Ok?
    ensures Clean(text + [0]) && Closed(text + [0])
    ensures var m := MinifyText(text + [0]);
            && Clean(m) && Closed(m) && MinifyText(m) == m
            && ParseWithOpts(m[..|m| - 1], true) == Ok(ParseWithOpts(text, true).value, [0])
  {
    hide ParseWithOpts, Closed, Tidy, Squeeze, MinifyText;
    var s := text + [0];
    SqueezeParses(text);
    SqueezeTwice(s);
    SqueezeIsMinify(s);
    SqueezeIsMinify(Squeeze(s));
  }

  lemma SqueezeParses(text: Text)
    requires NulFree(text) && ParseWithOpts(text, true).Ok?
    ensures Clean(text + [0]) && Tidy(text + [0]) && |Squeeze(text + [0])| > 0
    ensures var m := Squeeze(text + [0]);
            Clean(m) && ParseWithOpts(m[..|m| - 1], true) == Ok(ParseWithOpts(text, true).value, [0])
  {
    hide ParseValue, Skip, SkipBom, Tidy, Squeeze;
    var s := text + [0];
    assert s[..|s| - 1] == text;
    TextKept(s);
    SqueezeTwice(s);
    var m := Squeeze(s);
    assert m[..|m| - 1] + [0] == m;
  }

  lemma SqueezeIsMinify(s: Text)
    requires Tidy(s)
    ensures Closed(s) && MinifyText(s) == Squeeze(s)
  {
    TidyClosed(s);
  }
}
