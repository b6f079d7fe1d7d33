/** cJSON_Minify: blanks and comments are squeezed out of a text inside its own buffer. */
module Minify {
  import opened Bytes
  import opened JsonTree
  import opened JsonGrammar
  import opened Wrappers

  const SLASH: byte := 47
  const STAR: byte := 42

  predicate Dropped(b: byte) {
    b == 32 || b == 9 || b == 13 || b == 10
  }

  /** A C string with its terminator and no other NUL. */
  predicate Clean(s: Text) {
    Terminated(s) && NulFree(s[..|s| - 1])
  }

  predicate LineComment(s: Text) {
    |s| > 1 && s[0] == SLASH && s[1] == SLASH
  }

  predicate BlockComment(s: Text) {
    |s| > 1 && s[0] == SLASH && s[1] == STAR
  }

  /** Where a line comment ends: at a newline or at the terminator. */
  function LineEnd(s: Text): (n: nat)
    ensures n <= |s|
  {
    if s == [] || s[0] == 0 || s[0] == NEWLINE then 0 else 1 + LineEnd(s[1..])
  }

  /** Where a block comment's closing mark stands. */
  function BlockEnd(s: Text): (r: Option<nat>)
    ensures r.Some? ==> r.value + 2 <= |s|
  {
    if |s| < 2 || s[0] == 0 then None
    else if s[0] == STAR && s[1] == SLASH then Some(0)
    else
      match BlockEnd(s[1..])
      case None => None
      case Some(n) => Some(n + 1)
  }

  /** Every string and block comment is closed. */
  predicate Closed(s: Text)
    decreases |s|
  {
    if s == [] then false
    else if s[0] == 0 then true
    else if LineComment(s) then Closed(s[LineEnd(s)..])
    else if BlockComment(s) then BlockEnd(s).Some? && Closed(s[BlockEnd(s).value + 2..])
    else if s[0] == QUOTE then ClosingQuote(s[1..]).Some? && Closed(s[ClosingQuote(s[1..]).value + 2..])
    else Closed(s[1..])
  }

  /** The minified text, terminator included. */
  function MinifyText(s: Text): (m: Text)
    requires Closed(s)
    ensures 0 < |m| <= |s|
    decreases |s|
  {
    if s[0] == 0 then [0]
    else if Dropped(s[0]) then MinifyText(s[1..])
    else if LineComment(s) then MinifyText(s[LineEnd(s)..])
    else if BlockComment(s) then MinifyText(s[BlockEnd(s).value + 2..])
    else if s[0] == QUOTE then
      var n := ClosingQuote(s[1..]).value + 2;
      s[..n] + MinifyText(s[n..])
    else [s[0]] + MinifyText(s[1..])
  }

  // ---- the pass over the buffer ---------------------------------------------

  /** The part of the buffer from `json` on still holds the original text. */
  ghost predicate Unread(a: array<byte>, text: Text, json: nat)
    reads a
  {
    json <= |text| <= a.Length && forall k {:trigger a[k]} :: json <= k < |text| ==> a[k] == text[k]
  }

  /** Where the token at i ends in the text: comments and strings, by position. */
  ghost function TokenEnd(text: Text, i: nat): nat
    requires i < |text|
  {
    var s := text[i..];
    if LineComment(s) then i + LineEnd(s)
    else if BlockComment(s) && BlockEnd(s).Some? then i + BlockEnd(s).value + 2
    else if s[0] == QUOTE && ClosingQuote(s[1..]).Some? then i + ClosingQuote(s[1..]).value + 2
    else i + 1
  }

  /** A double-slash comment, up to but not including the newline. */
  method PassLineComment(a: array<byte>, start: nat, ghost text: Text) returns (json: nat)
    requires Unread(a, text, start) && start + 1 < |text| && Clean(text)
    requires text[start] == text[start + 1] == SLASH
    ensures start < json < |text| && json == TokenEnd(text, start)
  {
    json := start;
    while a[json] != 0 && a[json] != NEWLINE
      invariant start <= json < |text|
      invariant LineEnd(text[start..]) == json - start + LineEnd(text[json..])
      decreases |text| - json
    {
      assert text[json..][1..] == text[json + 1..];
      json := json + 1;
    }
  }

  function Shift(r: Option<nat>, d: nat): Option<nat> {
    match r
    case None => None
    case Some(n) => Some(n + d)
  }

  /** A block comment and its closing mark. At the terminator the position still moves on by two,
      and out of the text. */
  method PassBlockComment(a: array<byte>, start: nat, ghost text: Text) returns (json: nat)
    requires Unread(a, text, start) && start + 1 < |text| && Clean(text)
    requires text[start] == SLASH && text[start + 1] == STAR
    ensures start < json && if BlockEnd(text[start..]).Some? then json == TokenEnd(text, start) else json > |text|
  {
    hide BlockEnd;
    json := start;
    while a[json] != 0 && !(a[json] == STAR && a[json + 1] == SLASH)
      invariant start <= json < |text|
      invariant BlockEnd(text[start..]) == Shift(BlockEnd(text[json..]), json - start)
      decreases |text| - json
    {
      CommentByte(text, json);
      json := json + 1;
    }
    CommentStops(text, json);
    json := json + 2;
  }

  lemma CommentByte(text: Text, k: nat)
    requires Clean(text) && k < |text| && text[k] != 0 && !(text[k] == STAR && k + 1 < |text| && text[k + 1] == SLASH)
    ensures k + 1 < |text| && BlockEnd(text[k..]) == Shift(BlockEnd(text[k + 1..]), 1)
  {
    assert text[k..][1..] == text[k + 1..];
  }

  lemma CommentStops(text: Text, k: nat)
    requires Clean(text) && k < |text|
    requires text[k] == 0 || (text[k] == STAR && k + 1 < |text| && text[k + 1] == SLASH)
    ensures text[k] == 0 ==> k == |text| - 1 && BlockEnd(text[k..]) == None
    ensures text[k] != 0 ==> BlockEnd(text[k..]) == Some(0)
  {
    if k < |text| - 1 {
      assert text[k] == text[..|text| - 1][k];
    }
    assert text[k] != 0 ==> text[k..][0] == STAR && text[k..][1] == SLASH;
  }

  /** The bytes from `start` to `json` stand copied at `to`, and nothing else differs from what
      the buffer held before. */
  ghost predicate Copied(a: array<byte>, before: Text, text: Text, start: nat, json: nat, to: nat)
    reads a
  {
    && to <= start <= json <= |text| <= a.Length == |before|
    && (forall k {:trigger a[k]} :: to <= k < to + (json - start) ==> a[k] == text[start + (k - to)])
    && (forall k {:trigger a[k]} :: 0 <= k < to || |text| <= k < a.Length ==> a[k] == before[k])
  }

  method CopyByte(a: array<byte>, json: nat, into: nat, ghost text: Text)
    requires Unread(a, text, json) && into <= json < |text|
    modifies a
    ensures Unread(a, text, json + 1) && a[into] == text[json]
    ensures forall k :: 0 <= k < a.Length && k != into ==> a[k] == old(a[k])
  {
    a[into] := a[json];
  }

  method CopyNext(a: array<byte>, start: nat, json: nat, to: nat, ghost text: Text, ghost before: Text)
    requires Unread(a, text, json) && Copied(a, before, text, start, json, to) && json < |text|
    modifies a
    ensures Unread(a, text, json + 1) && Copied(a, before, text, start, json + 1, to)
  {
    CopyByte(a, json, to + (json - start), text);
  }

  lemma CopiedNothing(a: array<byte>, text: Text, start: nat, to: nat)
    requires Unread(a, text, start) && to <= start
    ensures Copied(a, a[..], text, start, start, to)
  {
  }

  /** Copies one string literal, quotes included. Without a closing quote the terminator is copied
      too, and the read position leaves the text that ends at `end`. */
  method CopyString(a: array<byte>, start: nat, to: nat, end: nat, ghost text: Text)
    returns (left: bool, json: nat, into: nat)
    requires Unread(a, text, start) && to <= start < |text| == end && Clean(text) && text[start] == QUOTE
    modifies a
    ensures start < json <= end && into == to + (json - start)
    ensures Unread(a, text, json) && Copied(a, old(a[..]), text, start, json, to)
    ensures left <==> ClosingQuote(text[start + 1..]).None?
    ensures !left ==> ClosingQuote(text[start + 1..]) == Some(json - start - 2)
  {
    hide ClosingQuote, Unread, Copied, Clean;
    ghost var before := a[..];
    CopiedNothing(a, text, start, to);
    QuoteInside(text, start);
    CopyNext(a, start, start, to, text, before);
    json := start + 1;
    while json < end && a[json] != 0 && a[json] != QUOTE
      invariant start < json <= end <= a.Length && (json < end ==> a[json] == text[json])
      invariant Unread(a, text, json) && Copied(a, before, text, start, json, to)
      invariant ClosingQuote(text[start + 1..]) == Shift(ClosingQuote(text[json..]), json - start - 1)
      decreases end - json
    {
      StringByte(text, json);
      if a[json] == BACKSLASH {
        CopyNext(a, start, json, to, text, before);
        json := json + 1;
      }
      CopyNext(a, start, json, to, text, before);
      json := json + 1;
    }
    StringStops(text, json);
    if json < end {
      left := a[json] == 0;
      CopyNext(a, start, json, to, text, before);
      json := json + 1;
    } else {
      left := true;
    }
    into := to + (json - start);
  }

  lemma QuoteInside(text: Text, k: nat)
    requires Clean(text) && k < |text| && text[k] == QUOTE
    ensures k + 1 < |text|
  {
  }

  lemma StringByte(text: Text, k: nat)
    requires Clean(text) && k < |text| && text[k] != 0 && text[k] != QUOTE
    ensures k + 1 < |text|
    ensures var d := if text[k] == BACKSLASH then 2 else 1;
            ClosingQuote(text[k..]) == Shift(ClosingQuote(text[k + d..]), d)
  {
    assert text[k..][1..] == text[k + 1..] && text[k..][2..] == text[k + 2..];
  }

  lemma StringStops(text: Text, k: nat)
    requires Clean(text) && k <= |text| && (k < |text| ==> text[k] == 0 || text[k] == QUOTE)
    ensures ClosingQuote(text[k..]) == if k < |text| && text[k] == QUOTE then Some(0) else None
    ensures k < |text| && text[k] == 0 ==> k == |text| - 1
  {
    if k < |text| - 1 {
      assert text[k] == text[..|text| - 1][k];
    }
    if k == |text| - 1 {
      assert text[k..] == [0];
      assert text[k..][1..] == [];
    }
  }

  /** What the pass has written so far and what it still has to read make up the answer, and the
      rest is closed exactly when the whole is. */
  ghost predicate Progress(text: Text, done: Text, json: nat) {
    && json < |text| && (Closed(text) <==> Closed(text[json..]))
    && (Closed(text) ==> MinifyText(text) == done + MinifyText(text[json..]))
  }

  lemma ProgressEnd(text: Text, done: Text, json: nat)
    requires Progress(text, done, json) && text[json] == 0
    ensures Closed(text) && MinifyText(text) == done + [0]
  {
    assert text[json..][0] == 0;
  }

  /** What is left out in front changes neither the answer nor whether the rest is closed. */
  ghost predicate Same(s: Text, rest: Text) {
    (Closed(s) <==> Closed(rest)) && (Closed(s) ==> MinifyText(s) == MinifyText(rest))
  }

  lemma BlankUnfold(s: Text)
    requires s != [] && Dropped(s[0])
    ensures Same(s, s[1..])
  {
  }

  lemma LineUnfold(s: Text)
    requires LineComment(s)
    ensures Same(s, s[LineEnd(s)..])
  {
  }

  lemma BlockUnfold(s: Text)
    requires BlockComment(s)
    ensures if BlockEnd(s).Some? then Same(s, s[BlockEnd(s).value + 2..]) else !Closed(s)
  {
  }

  lemma SameStep(text: Text, done: Text, json: nat, end: nat)
    requires Progress(text, done, json) && json <= end <= |text| && Same(text[json..], text[end..])
    ensures SkippedTo(text, done, end)
  {
    hide MinifyText;
    assert Closed([]) == false;
  }

  /** The position behind what is left out; behind a block comment there is still the terminator. */
  ghost predicate SkippedTo(text: Text, done: Text, json: nat) {
    if json < |text| then Progress(text, done, json) else !Closed(text)
  }

  lemma MoreFollows(text: Text, k: nat)
    requires Clean(text) && k < |text| && text[k] != 0
    ensures k + 1 < |text|
  {
  }

  lemma ProgressInside(text: Text, done: Text, json: nat)
    requires Progress(text, done, json)
    ensures json < |text| && (Closed(text) <==> Closed(text[json..]))
  {
  }

  /** Blanks and comments leave the output alone. */
  lemma SkipStep(text: Text, done: Text, json: nat)
    requires Clean(text) && json < |text| && Progress(text, done, json) && text[json] != 0
    ensures json + 1 < |text|
    ensures Dropped(text[json]) ==> SkippedTo(text, done, json + 1)
    ensures text[json] == text[json + 1] == SLASH ==> SkippedTo(text, done, TokenEnd(text, json))
    ensures text[json] == SLASH && text[json + 1] == STAR ==>
              if BlockEnd(text[json..]).Some? then SkippedTo(text, done, TokenEnd(text, json)) else !Closed(text)
  {
    hide Closed, MinifyText, LineEnd, BlockEnd, Same, SkippedTo, Progress, Clean;
    MoreFollows(text, json);
    ProgressInside(text, done, json);
    var s := text[json..];
    assert s[0] == text[json] && s[1] == text[json + 1] && s[1..] == text[json + 1..];
    if Dropped(s[0]) {
      BlankUnfold(s);
      SameStep(text, done, json, json + 1);
    } else if LineComment(s) {
      LineUnfold(s);
      assert s[LineEnd(s)..] == text[json + LineEnd(s)..];
      SameStep(text, done, json, json + LineEnd(s));
    } else if BlockComment(s) {
      BlockUnfold(s);
      if BlockEnd(s).Some? {
        assert s[BlockEnd(s).value + 2..] == text[json + BlockEnd(s).value + 2..];
        SameStep(text, done, json, json + BlockEnd(s).value + 2);
      }
    }
  }

  /** What is copied in front. */
  ghost predicate Kept(s: Text, n: nat)
    requires n <= |s|
  {
    (Closed(s) <==> Closed(s[n..])) && (Closed(s) ==> MinifyText(s) == s[..n] + MinifyText(s[n..]))
  }

  lemma StringUnfold(s: Text)
    requires s != [] && s[0] == QUOTE
    ensures if ClosingQuote(s[1..]).Some? then Kept(s, ClosingQuote(s[1..]).value + 2) else !Closed(s)
  {
  }

  lemma ByteUnfold(s: Text)
    requires s != [] && s[0] != 0 && s[0] != QUOTE && !Dropped(s[0]) && !LineComment(s) && !BlockComment(s)
    ensures Kept(s, 1)
  {
    assert s[..1] == [s[0]];
  }

  lemma KeptStep(text: Text, done: Text, json: nat, n: nat)
    requires Progress(text, done, json) && json + n < |text| && Kept(text[json..], n)
    ensures Progress(text, done + text[json..json + n], json + n)
  {
    hide Closed, MinifyText;
    var s := text[json..];
    assert s[n..] == text[json + n..] && s[..n] == text[json..json + n];
    if Closed(text) {
      assert done + (s[..n] + MinifyText(s[n..])) == done + s[..n] + MinifyText(s[n..]);
    }
  }

  /** Strings and all other bytes are copied. */
  lemma CopyStep(text: Text, done: Text, json: nat)
    requires Clean(text) && json < |text| && Progress(text, done, json) && text[json] != 0 && !Dropped(text[json])
    requires !LineComment(text[json..]) && !BlockComment(text[json..])
    ensures text[json] == QUOTE && ClosingQuote(text[json + 1..]).None? ==> !Closed(text)
    ensures text[json] == QUOTE && ClosingQuote(text[json + 1..]).Some? ==>
              var end := json + ClosingQuote(text[json + 1..]).value + 2;
              end < |text| && Progress(text, done + text[json..end], end)
    ensures text[json] != QUOTE ==> json + 1 < |text| && Progress(text, done + text[json..json + 1], json + 1)
  {
    hide Closed, MinifyText, ClosingQuote, Kept, Progress, Clean;
    MoreFollows(text, json);
    ProgressInside(text, done, json);
    var s := text[json..];
    assert s[0] == text[json] && s[1..] == text[json + 1..];
    if text[json] == QUOTE {
      StringUnfold(s);
      if ClosingQuote(s[1..]).Some? {
        var n := ClosingQuote(s[1..]).value + 2;
        QuoteIsByte(text, json, n - 2);
        KeptStep(text, done, json, n);
      }
    } else {
      ByteUnfold(s);
      KeptStep(text, done, json, 1);
    }
  }

  lemma QuoteIsByte(text: Text, k: nat, n: nat)
    requires Clean(text) && k + 1 <= |text| && ClosingQuote(text[k + 1..]) == Some(n)
    ensures k + n + 2 < |text|
  {
    assert text[k + 1..][n] == text[k + 1 + n] == QUOTE;
  }

  /** The state between rounds: `done` is written, the rest of the text is still unread. */
  ghost predicate Between(a: array<byte>, text: Text, done: Text, json: nat, into: nat)
    reads a
  {
    && into <= json < |text| && |done| == into
    && Unread(a, text, json) && Progress(text, done, json)
    && forall k {:trigger a[k]} :: 0 <= k < into ==> a[k] == done[k]
  }

  /** One round of the loop that writes nothing: a blank or a comment. */
  method PassSkipped(a: array<byte>, start: nat, to: nat, ghost text: Text, ghost done: Text) returns (json: nat)
    requires Clean(text) && Between(a, text, done, start, to) && a[start] != 0
    ensures json == start ==> !Dropped(text[start]) && !LineComment(text[start..]) && !BlockComment(text[start..])
    ensures start <= json && if json < |text| then Between(a, text, done, json, to) else !Closed(text)
  {
    hide Progress, TokenEnd, BlockEnd, Clean, Closed;
    SkipStep(text, done, start);
    json := start;
    if a[json] == 32 || a[json] == TAB || a[json] == 13 || a[json] == NEWLINE {
      json := json + 1;
    } else if a[json] == SLASH && a[json + 1] == SLASH {
      json := PassLineComment(a, json, text);
    } else if a[json] == SLASH && a[json + 1] == STAR {
      json := PassBlockComment(a, json, text);
    }
  }

  /** One round of the loop that copies: a string or a plain byte. */
  method PassCopied(a: array<byte>, start: nat, to: nat, end: nat, ghost text: Text, ghost before: Text)
    returns (left: bool, json: nat, into: nat, ghost done: Text)
    requires Clean(text) && end == |text| && Between(a, text, before, start, to) && a[start] != 0
    requires !Dropped(text[start]) && !LineComment(text[start..]) && !BlockComment(text[start..])
    modifies a
    ensures start < json && if left then !Closed(text) else Between(a, text, done, json, into)
    ensures forall k :: |text| <= k < a.Length ==> a[k] == old(a[k])
  {
    hide Progress, ClosingQuote, Clean, LineComment, BlockComment, Closed;
    CopyStep(text, before, start);
    if a[start] == QUOTE {
      left, json, into := CopyString(a, start, to, end, text);
    } else {
      CopyByte(a, start, to, text);
      left, json, into := false, start + 1, to + 1;
    }
    done := before + text[start..json];
  }

  /** cJSON_Minify on the C string that ends at `end`. The read position leaves the text exactly
      when a string or a block comment is not closed. Otherwise the write position never passes the
      read position, and the buffer is left holding exactly the minified text. Nothing behind the
      text is written before the read position leaves it. */
  method MinifyInPlace(a: array<byte>, end: nat) returns (left: bool)
    requires 0 < end <= a.Length && Clean(a[..end])
    modifies a
    ensures left <==> !Closed(old(a[..end]))
    ensures !left ==> var m := MinifyText(old(a[..end])); |m| <= end && a[..|m|] == m
    ensures a[end..] == old(a[end..])
  {
    hide Progress, MinifyText, Closed, Clean;
    var json: nat, into: nat := 0, 0;
    ghost var text := a[..end];
    ghost var done: Text := [];
    ProgressStart(text);
    while a[json] != 0
      invariant Between(a, text, done, json, into)
      invariant forall k :: end <= k < a.Length ==> a[k] == old(a[k])
      decreases end - json
    {
      var start := json;
      json := PassSkipped(a, start, into, text, done);
      if json >= end {
        return true;
      }
      if json == start {
        left, json, into, done := PassCopied(a, start, into, end, text, done);
        if left {
          return;
        }
      }
    }
    ProgressEnd(text, done, json);
    a[into] := 0;
    left := false;
  }

  lemma ProgressStart(text: Text)
    requires Clean(text)
    ensures Progress(text, [], 0)
  {
    assert text[0..] == text;
  }

  /** A lone quote, and a block comment without its end, are not closed: the pass reads on behind
      their terminators. */
  lemma UnclosedTexts()
    ensures Clean([QUOTE, 0]) && !Closed([QUOTE, 0])
    ensures Clean([SLASH, STAR, 0]) && !Closed([SLASH, STAR, 0])
  {
    var s: Text := [QUOTE, 0];
    assert s[1..] == [0] && s[1..][1..] == [];
    var t: Text := [SLASH, STAR, 0];
    assert t[1..] == [STAR, 0] && t[1..][1..] == [0];
  }
}
