/** The parser only ever moves forward through its text, and what it reads of a string
    depends on the bytes up to the closing quote alone. */
module JsonSuffix {
  import opened Bytes
  import opened JsonTree
  import opened JsonGrammar
  import opened Wrappers

  /** r is what is left of s after at least one byte, and the terminator is still in it. */
  predicate Remains(r: Text, s: Text) {
    |r| < |s| && r == s[|s| - |r|..] && (Terminated(s) ==> r != [])
  }

  lemma RemainsTrans(a: Text, b: Text, c: Text)
    requires Remains(a, b) && Remains(b, c)
    ensures Remains(a, c)
  {
    assert b[|b| - |a|..] == c[|c| - |a|..];
    if Terminated(c) {
      assert b[|b| - 1] == c[|c| - 1];
    }
  }

  lemma RemainsTail(s: Text)
    requires s != [] && s[0] != 0
    ensures Remains(s[1..], s)
  {
  }

  lemma {:induction false} SkipRemains(s: Text)
    ensures Skip(s) == s || Remains(Skip(s), s)
    ensures Terminated(s) ==> Terminated(Skip(s))
  {
    if |s| > 1 && s[0] <= 32 {
      SkipRemains(s[1..]);
      if Skip(s) != s[1..] {
        assert s[1..][|s[1..]| - |Skip(s)|..] == s[|s| - |Skip(s)|..];
      }
      assert Terminated(s) ==> Terminated(s[1..]);
    }
  }

  lemma RemainsSkip(r: Text, s: Text)
    requires Remains(r, Skip(s))
    ensures Remains(r, s)
  {
    SkipRemains(s);
    if Skip(s) != s {
      RemainsTrans(r, Skip(s), s);
    }
  }

  lemma SkipOfRemains(r: Text, s: Text)
    requires Remains(r, s)
    ensures Remains(Skip(r), s)
  {
    SkipRemains(r);
    if Skip(r) != r {
      RemainsTrans(Skip(r), r, s);
    }
  }

  lemma StringRemains(s: Text)
    ensures ParseString(s).Ok? ==> Remains(ParseString(s).rest, s)
  {
    if ParseString(s).Ok? {
      var n := ClosingQuote(s[1..]).value;
      assert s[n + 1] == s[1..][n] == QUOTE;
    }
  }

  lemma NumberRemains(s: Text)
    ensures ParseNumber(s).Ok? ==> Remains(ParseNumber(s).rest, s)
  {
    var run := NumberRun(s, NUMBER_CAPACITY);
    if ParseNumber(s).Ok? && Terminated(s) {
      assert !IsNumberByte(s[|s| - 1]);
    }
  }

  lemma LiteralRemains(s: Text, literal: Text)
    requires StartsWith(s, literal) && literal != [] && NulFree(literal)
    ensures Remains(s[|literal|..], s)
  {
    assert s[..|literal|][|literal| - 1] == s[|literal| - 1];
  }

  lemma ScalarRemains(s: Text, depth: nat)
    requires !Head(s, OPEN_BRACKET) && !Head(s, OPEN_BRACE)
    ensures ParseValue(s, depth).Ok? ==> Remains(ParseValue(s, depth).rest, s)
  {
    hide Remains;
    if StartsWith(s, NULL_TEXT) {
      LiteralRemains(s, NULL_TEXT);
    } else if StartsWith(s, FALSE_TEXT) {
      LiteralRemains(s, FALSE_TEXT);
    } else if StartsWith(s, TRUE_TEXT) {
      LiteralRemains(s, TRUE_TEXT);
    } else {
      StringRemains(s);
      NumberRemains(s);
    }
  }

  /** A successful parse leaves a proper suffix of its text, with the terminator in it. */
  lemma {:induction false} ValueRemains(s: Text, depth: nat)
    ensures ParseValue(s, depth).Ok? ==> Remains(ParseValue(s, depth).rest, s)
    decreases |s|, 1
  {
    if Head(s, OPEN_BRACKET) || Head(s, OPEN_BRACE) {
      if ParseValue(s, depth).Ok? {
        ContainerRemains(s, depth);
      }
    } else {
      ScalarRemains(s, depth);
    }
  }

  lemma {:induction false} ContainerRemains(s: Text, depth: nat)
    requires ParseValue(s, depth).Ok? && (Head(s, OPEN_BRACKET) || Head(s, OPEN_BRACE))
    ensures Remains(ParseValue(s, depth).rest, s)
    decreases |s|, 0
  {
    hide Remains;
    var body := Skip(s[1..]);
    var r := ParseValue(s, depth).rest;
    if Head(body, CLOSE_BRACKET) || Head(body, CLOSE_BRACE) {
      RemainsTail(body);
    }
    ItemsRemain(body, depth + 1);
    MembersRemain(body, depth + 1);
    assert Remains(r, body) by {
      if StartsWith(s, NULL_TEXT) || StartsWith(s, FALSE_TEXT) || StartsWith(s, TRUE_TEXT) {
        NoLiteralHead(s);
      }
    }
    RemainsSkip(r, s[1..]);
    RemainsTail(s);
    RemainsTrans(r, s[1..], s);
  }

  lemma NoLiteralHead(s: Text)
    ensures StartsWith(s, NULL_TEXT) ==> Head(s, NULL_TEXT[0])
    ensures StartsWith(s, FALSE_TEXT) ==> Head(s, FALSE_TEXT[0])
    ensures StartsWith(s, TRUE_TEXT) ==> Head(s, TRUE_TEXT[0])
  {
    if |s| >= 4 { assert s[..4][0] == s[0]; }
    if |s| >= 5 { assert s[..5][0] == s[0]; }
  }

  lemma {:induction false} ItemsRemain(s: Text, depth: nat)
    ensures ParseItems(s, depth).Ok? ==> Remains(ParseItems(s, depth).rest, s)
    decreases |s|, 2
  {
    hide Remains;
    ValueRemains(Skip(s), depth);
    var first := ParseValue(Skip(s), depth);
    if first.Ok? {
      RemainsSkip(first.rest, s);
      SkipOfRemains(first.rest, s);
      var next := Skip(first.rest);
      if next != [] && next[0] != 0 {
        RemainsTail(next);
        RemainsTrans(next[1..], next, s);
        ItemsRemain(next[1..], depth);
        if Head(next, COMMA) && ParseItems(next[1..], depth).Ok? {
          RemainsTrans(ParseItems(next[1..], depth).rest, next[1..], s);
        }
      }
    }
  }

  lemma {:induction false} MemberRemains(s: Text, depth: nat)
    ensures ParseMember(s, depth).Ok? ==> Remains(ParseMember(s, depth).rest, s)
    decreases |s|, 2
  {
    hide Remains;
    if ParseMember(s, depth).Ok? {
      StringRemains(s);
      var afterKey := ParseString(s).rest;
      SkipOfRemains(afterKey, s);
      var colon := Skip(afterKey);
      RemainsTail(colon);
      RemainsTrans(colon[1..], colon, s);
      ValueRemains(Skip(colon[1..]), depth);
      var r := ParseMember(s, depth).rest;
      RemainsSkip(r, colon[1..]);
      RemainsTrans(r, colon[1..], s);
    }
  }

  lemma {:induction false} MembersRemain(s: Text, depth: nat)
    ensures ParseMembers(s, depth).Ok? ==> Remains(ParseMembers(s, depth).rest, s)
    decreases |s|, 3
  {
    hide Remains;
    MemberRemains(Skip(s), depth);
    var first := ParseMember(Skip(s), depth);
    if first.Ok? {
      RemainsSkip(first.rest, s);
      SkipOfRemains(first.rest, s);
      var next := Skip(first.rest);
      if next != [] && next[0] != 0 {
        RemainsTail(next);
        RemainsTrans(next[1..], next, s);
        MembersRemain(next[1..], depth);
        if Head(next, COMMA) && ParseMembers(next[1..], depth).Ok? {
          RemainsTrans(ParseMembers(next[1..], depth).rest, next[1..], s);
        }
      }
    }
  }

  // ---- strings read no further than their quote ------------------------------

  lemma {:induction false} QuoteLocal(a: Text, b: Text, n: nat)
    requires ClosingQuote(a) == Some(n) && n < |b| && a[..n + 1] == b[..n + 1]
    ensures ClosingQuote(b) == Some(n)
  {
    assert a[0] == a[..n + 1][0] == b[0];
    if a[0] == BACKSLASH {
      assert a[2..][..n - 1] == a[..n + 1][2..] == b[..n + 1][2..] == b[2..][..n - 1];
      QuoteLocal(a[2..], b[2..], n - 2);
    } else if a[0] != QUOTE {
      assert a[1..][..n] == a[..n + 1][1..] == b[..n + 1][1..] == b[1..][..n];
      QuoteLocal(a[1..], b[1..], n - 1);
    }
  }

  lemma StepLocal(a: Text, b: Text, n: int)
    requires 0 < n < |a| && n < |b| && a[..n + 1] == b[..n + 1]
    ensures DecodeStep(a, n) == DecodeStep(b, n)
  {
    assert forall i :: 0 <= i <= n ==> a[i] == a[..n + 1][i] == b[..n + 1][i] == b[i];
    if n >= 6 {
      assert Hex4(a[2..]) == Hex4(b[2..]);
      if n >= 12 {
        assert Hex4(a[8..]) == Hex4(b[8..]);
      }
    }
  }

  lemma {:induction false} DecodeLocal(a: Text, b: Text, n: int)
    requires n < |a| && n < |b| && (n >= 0 ==> a[..n + 1] == b[..n + 1])
    ensures Decode(a, n) == Decode(b, n)
    decreases n
  {
    if n > 0 {
      StepLocal(a, b, n);
      var step := DecodeStep(a, n);
      if step.Some? && step.value.0 <= n {
        var k := step.value.0;
        assert a[k..][..n - k + 1] == a[..n + 1][k..] == b[..n + 1][k..] == b[k..][..n - k + 1];
        DecodeLocal(a[k..], b[k..], n - k);
      }
    }
  }
}
