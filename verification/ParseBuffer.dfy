/** The parser itself: an offset and a nesting depth that move through a text. */
module ParseBuffer {
  import opened Bytes
  import opened Decimal
  import opened JsonTree
  import opened JsonGrammar
  import opened JsonSuffix
  import opened NodeBuild
  import opened NodeList
  import opened NodeTree
  import opened Wrappers

  // ---- the size of a string's output buffer -------------------------------------

  /** Escapes that the scan for the closing quote meets in the first n bytes of a body. */
  function Escapes(s: Text, n: int): nat {
    if n <= 0 || s == [] || s[0] == QUOTE then 0
    else if s[0] == BACKSLASH then 1 + (if |s| >= 2 then Escapes(s[2..], n - 2) else 0)
    else Escapes(s[1..], n - 1)
  }

  /** No two neighbouring bytes both start an escape, and only a backslash does. */
  lemma {:induction false} EscapesApart(s: Text, n: int)
    ensures Escapes(s, n) <= Escapes(s, n + 1) <= Escapes(s, n) + 1
    ensures n >= 0 ==> Escapes(s, n + 2) <= Escapes(s, n) + 1
    ensures 0 <= n < |s| && s[n] != BACKSLASH ==> Escapes(s, n + 1) == Escapes(s, n)
  {
    if s != [] && s[0] != QUOTE && n >= -1 {
      if s[0] == BACKSLASH {
        if |s| >= 2 {
          EscapesApart(s[2..], n - 2);
          if n == 1 { EscapesApart(s[2..], 0); }
        }
      } else {
        EscapesApart(s[1..], n - 1);
        if n == 0 { EscapesApart(s[1..], 0); }
      }
    }
  }

  lemma EscapesInUnit(s: Text, n: nat)
    ensures Escapes(s, n + 6) <= Escapes(s, n) + 3
    ensures Escapes(s, n + 12) <= Escapes(s, n) + 6
  {
    EscapesApart(s, n);
    EscapesApart(s, n + 2);
    EscapesApart(s, n + 4);
    EscapesApart(s, n + 6);
    EscapesApart(s, n + 8);
    EscapesApart(s, n + 10);
  }

  lemma {:induction false} RoomGrows(s: Text, m: nat, n: nat)
    requires m <= n
    ensures m - Escapes(s, m) <= n - Escapes(s, n)
  {
    if m < n {
      EscapesApart(s, n - 1);
      RoomGrows(s, m, n - 1);
    }
  }

  /** However the decoding pass steps, in step with the scan or not, what one step writes is
      paid for by the bytes it consumes less the escapes the scan saw there. */
  lemma StepFits(s: Text, p: nat, n: int)
    requires p < n < |s| && DecodeStep(s[p..], n - p).Some?
    ensures var (length, bytes) := DecodeStep(s[p..], n - p).value;
            p + length - Escapes(s, p + length) >= p - Escapes(s, p) + |bytes|
    ensures p + DecodeStep(s[p..], n - p).value.0 <= n + 1
  {
    EscapesApart(s, p);
    EscapesInUnit(s, p);
  }

  /** Past the closing quote there are no more escapes. */
  lemma {:induction false} EscapesEnd(s: Text, n: nat, k: int)
    requires ClosingQuote(s) == Some(n) && n <= k
    ensures Escapes(s, k) == Escapes(s, n)
  {
    if s[0] == BACKSLASH {
      EscapesEnd(s[2..], n - 2, k - 2);
    } else if s[0] != QUOTE {
      EscapesEnd(s[1..], n - 1, k - 1);
    }
  }

  /** The size estimate of parse_string is a true bound: nothing it writes, the NUL included,
      lies outside the block of content length less skipped bytes plus two. */
  lemma {:induction false} DecodedFits(s: Text, n: nat, p: nat)
    requires ClosingQuote(s) == Some(n) && p <= n + 1
    requires Decode(s[p..], n - p).Some?
    ensures p - Escapes(s, p) + |Decode(s[p..], n - p).value| <= n + 1 - Escapes(s, n)
    decreases n + 1 - p
  {
    hide Decode, DecodeStep, Escapes, ClosingQuote;
    if p >= n {
      EscapesEnd(s, n, p);
      DecodeNothing(s[p..], n - p);
    } else {
      DecodeUnfold(s, n, p);
      StepFits(s, p, n);
      var length, bytes := DecodeStep(s[p..], n - p).value.0, DecodeStep(s[p..], n - p).value.1;
      var q := p + length;
      if q <= n {
        var tail := Decode(s[q..], n - q).value;
        DecodedFits(s, n, q);
        assert Decode(s[p..], n - p).value == bytes + tail;
      } else {
        EscapesEnd(s, n, q);
      }
    }
  }

  lemma DecodeNothing(s: Text, n: int)
    requires n <= 0 && n < |s|
    ensures Decode(s, n) == Some([])
  {
  }

  lemma DecodeUnfold(s: Text, n: int, p: nat)
    requires p < n < |s|
    ensures DecodeStep(s[p..], n - p).None? ==> Decode(s[p..], n - p).None?
    ensures DecodeStep(s[p..], n - p).Some? ==>
            var (length, bytes) := DecodeStep(s[p..], n - p).value;
            Decode(s[p..], n - p) ==
            if p + length > n then Some(bytes)
            else match Decode(s[p + length..], n - (p + length)) case None => None case Some(tail) => Some(bytes + tail)
  {
    if DecodeStep(s[p..], n - p).Some? {
      var length := DecodeStep(s[p..], n - p).value.0;
      if p + length <= n {
        assert s[p..][length..] == s[p + length..];
      }
    }
  }

  // ---- decoding into the output buffer ---------------------------------------------

  /** Writes one UTF-8 sequence, last byte first; the caller has made room for it. */
  method StoreUtf8(output: array<byte>, at: nat, codepoint: nat) returns (next: nat)
    requires codepoint < 0x110000 && at + |Utf8(codepoint)| <= output.Length
    modifies output
    ensures next == at + |Utf8(codepoint)| && output[at..next] == Utf8(codepoint)
    ensures forall k {:trigger output[k]} :: 0 <= k < at ==> output[k] == old(output[k])
  {
    hide Utf8, Pow64;
    var length, mark := 1, 0;
    if 0x80 <= codepoint < 0x800 {
      length, mark := 2, 0xC0;
    } else if 0x800 <= codepoint < 0x10000 {
      length, mark := 3, 0xE0;
    } else if 0x10000 <= codepoint {
      length, mark := 4, 0xF0;
    }
    Utf8Bytes(codepoint, length, mark);
    var position, rest := length - 1, codepoint;
    while position > 0
      invariant 0 <= position < length && rest == codepoint / Pow64(length - 1 - position)
      invariant forall k {:trigger output[k]} :: 0 <= k < at ==> output[k] == old(output[k])
      invariant forall k {:trigger output[k]} :: at + position < k < at + length ==>
                output[k] == Utf8(codepoint)[k - at]
    {
      Pow64Step(codepoint, length - 1 - position);
      output[at + position] := 0x80 + rest % 0x40;
      rest := rest / 0x40;
      position := position - 1;
    }
    output[at] := mark + rest;
    next := at + length;
    assert output[at..next] == Utf8(codepoint);
  }

  /** The bytes of an encoding: six bits each from the last one back, and the rest behind the mark. */
  lemma Utf8Bytes(codepoint: nat, length: nat, mark: nat)
    requires codepoint < 0x110000 && 1 <= length <= 4 && mark == [0, 0xC0, 0xE0, 0xF0][length - 1]
    requires length == if codepoint < 0x80 then 1 else if codepoint < 0x800 then 2 else if codepoint < 0x10000 then 3
             else 4
    ensures length == |Utf8(codepoint)|
    ensures Pow64(0) == 1 && Utf8(codepoint)[0] == mark + codepoint / Pow64(length - 1)
    ensures forall k :: 0 < k < length ==> Utf8(codepoint)[k] == 0x80 + codepoint / Pow64(length - 1 - k) % 0x40
  {
  }

  lemma Pow64Step(n: nat, e: nat)
    requires e < 3
    ensures n / Pow64(e) / 0x40 == n / Pow64(e + 1)
  {
  }

  function Pow64(n: int): (p: nat)
    ensures p > 0
  {
    if n <= 0 then 1 else if n == 1 then 0x40 else if n == 2 then 0x1000 else 0x40000
  }

  /** One byte or escape of the body at p, whose closing quote is at n: stored at `at`. */
  method StoreStep(s: Text, p: nat, n: nat, output: array<byte>, at: nat) returns (ok: bool, length: nat, next: nat)
    requires p < n < |s| && at <= output.Length
    requires DecodeStep(s[p..], n - p).Some? ==> at + |DecodeStep(s[p..], n - p).value.1| <= output.Length
    modifies output
    ensures ok <==> DecodeStep(s[p..], n - p).Some?
    ensures ok ==> at <= next <= output.Length && DecodeStep(s[p..], n - p) == Some((length, output[at..next]))
    ensures forall k {:trigger output[k]} :: 0 <= k < at ==> output[k] == old(output[k])
  {
    ok, length, next := true, 1, at;
    assert s[p..][0] == s[p] && s[p..][1] == s[p + 1];
    if s[p] != BACKSLASH {
      output[at] := s[p];
      next := at + 1;
      assert output[at..next] == [s[p]];
    } else if s[p + 1] == 117 {
      match Utf16Literal(s[p..], n - p)
      case None => ok := false;
      case Some((units, codepoint)) =>
        length := units;
        next := StoreUtf8(output, at, codepoint);
    } else {
      match SimpleEscape(s[p + 1])
      case None => ok := false;
      case Some(b) =>
        output[at] := b;
        next, length := at + 1, 2;
        assert output[at..next] == [b];
    }
  }

  /** `done` is what the body before p decodes to. */
  ghost predicate Decoded(s: Text, n: nat, p: nat, done: Text) {
    && n < |s| && p <= n + 1
    && Decode(s, n) == match Decode(s[p..], n - p) case None => None case Some(tail) => Some(done + tail)
  }

  lemma DecodedStart(s: Text, n: nat)
    requires n < |s|
    ensures Decoded(s, n, 0, [])
  {
    assert s[0..] == s;
    if Decode(s, n).Some? {
      assert [] + Decode(s, n).value == Decode(s, n).value;
    }
  }

  lemma DecodedStep(s: Text, n: nat, p: nat, done: Text)
    requires ClosingQuote(s) == Some(n) && p < n && Decoded(s, n, p, done)
    ensures var step := DecodeStep(s[p..], n - p);
            if step.None? then Decode(s, n).None? else Decoded(s, n, p + step.value.0, done + step.value.1)
  {
    hide Decode, DecodeStep, ClosingQuote, Escapes;
    DecodeBound(s, n, p);
    DecodeFails(s, n, p);
    if DecodeStep(s[p..], n - p).Some? {
      DecodeUnfold(s, n, p);
      var length, bytes := DecodeStep(s[p..], n - p).value.0, DecodeStep(s[p..], n - p).value.1;
      var q := p + length;
      DecodeDone(s, n, q);
      if Decode(s[q..], n - q).Some? {
        var tail := Decode(s[q..], n - q).value;
        assert done + bytes + tail == done + (bytes + tail);
        assert bytes + [] == bytes;
      }
    }
  }

  lemma DecodeFails(s: Text, n: int, p: nat)
    requires p < n < |s|
    ensures DecodeStep(s[p..], n - p).None? ==> Decode(s[p..], n - p).None?
  {
  }

  lemma DecodeDone(s: Text, n: int, p: nat)
    requires p <= |s| && n < |s|
    ensures n <= p ==> Decode(s[p..], n - p) == Some([])
  {
  }

  lemma DecodedEnd(s: Text, n: nat, p: nat, done: Text)
    requires n <= p && Decoded(s, n, p, done)
    ensures Decode(s, n) == Some(done)
  {
    assert done + [] == done;
  }

  /** The decoding pass: it fills a block that holds the estimate and one byte more. */
  method DecodeInto(s: Text, n: nat, size: nat) returns (ok: bool, output: array<byte>, length: nat)
    requires ClosingQuote(s) == Some(n) && size == n + 2 - Escapes(s, n)
    ensures ok <==> Decode(s, n).Some?
    ensures ok ==> length < output.Length && output[..length] == Decode(s, n).value && output[length] == 0
    ensures output.Length == size
  {
    hide Decode, DecodeStep, Escapes, ClosingQuote, Decoded;
    EscapesNone(s);
    RoomGrows(s, 0, n);
    DecodedStart(s, n);
    output := new byte[size];
    var p, at: nat := 0, 0;
    ghost var done: Text := [];
    while p < n
      invariant 0 <= p <= n + 1 && at <= p - Escapes(s, p) && at < size
      invariant output[..at] == done && Decoded(s, n, p, done)
      decreases n + 1 - p
    {
      DecodeBound(s, n, p);
      DecodedStep(s, n, p, done);
      var step, next;
      ok, step, next := StoreStep(s, p, n, output, at);
      if !ok {
        return false, output, at;
      }
      assert output[..next] == done + output[at..next];
      done, p, at := output[..next], p + step, next;
    }
    DecodedEnd(s, n, p, done);
    output[at] := 0;
    ok, length := true, at;
  }

  lemma EscapesNone(s: Text)
    ensures Escapes(s, 0) == 0
  {
  }

  /** The bound of one step, in terms of the block's size. */
  lemma DecodeBound(s: Text, n: nat, p: nat)
    requires ClosingQuote(s) == Some(n) && p < n
    ensures var step := DecodeStep(s[p..], n - p);
            step.Some? ==>
              var q := p + step.value.0;
              p < q <= n + 1 && p - Escapes(s, p) + |step.value.1| <= q - Escapes(s, q) <= n + 1 - Escapes(s, n)
  {
    if DecodeStep(s[p..], n - p).Some? {
      StepFits(s, p, n);
      var q := p + DecodeStep(s[p..], n - p).value.0;
      RoomGrows(s, q, n + 1);
      EscapesEnd(s, n, n + 1);
    }
  }

  // ---- the parser --------------------------------------------------------------------

  lemma StepSuffix(s: Text, i: nat)
    requires i < |s|
    ensures s[i..][1..] == s[i + 1..] && s[i..][0] == s[i]
    ensures i + 1 < |s| ==> s[i..][2..] == s[i + 2..]
  {
  }

  /** A member's key and what follows its colon and the blanks behind it. */
  function MemberKey(s: Text): Parsed<Text> {
    match ParseString(s)
    case Fail => Fail
    case Ok(key, afterKey) =>
      if Head(Skip(afterKey), COLON) then Ok(key, Skip(Skip(afterKey)[1..])) else Fail
  }

  lemma MemberSplit(s: Text, depth: nat)
    ensures MemberKey(s).Fail? ==> ParseMember(s, depth).Fail?
    ensures MemberKey(s).Ok? ==>
              var v := ParseValue(MemberKey(s).rest, depth);
              ParseMember(s, depth) == if v.Ok? then Ok(Member(MemberKey(s).value, v.value), v.rest) else Fail
  {
  }

  class Parser {
    const content: Text
    var offset: nat
    var depth: nat

    constructor (content: Text)
      requires Terminated(content)
      ensures this.content == content && offset == 0 && depth == 0 && Valid()
    {
      this.content, this.offset, this.depth := content, 0, 0;
    }

    ghost predicate Valid()
      reads `offset
    {
      Terminated(content) && offset < |content|
    }

    /** The unread text. */
    ghost function Rest(): Text
      requires offset <= |content|
      reads `offset
    {
      content[offset..]
    }

    /** buffer_skip_whitespace, with its step back from the end. */
    method SkipWhitespace()
      requires Valid()
      modifies `offset
      ensures Valid() && Rest() == Skip(old(Rest())) && old(offset) <= offset
    {
      while offset < |content| && content[offset] <= 32
        invariant old(offset) <= offset <= |content|
        invariant if offset < |content| then Skip(content[offset..]) == Skip(old(Rest()))
                  else Skip(old(Rest())) == content[|content| - 1..]
      {
        StepSuffix(content, offset);
        offset := offset + 1;
      }
      if offset == |content| {
        offset := offset - 1;
      }
    }

    /** parse_number: number bytes are copied out, at most 63 of them, and read by strtod. */
    method ParseNumberText() returns (ok: bool, n: real)
      requires Valid()
      modifies `offset
      ensures ok <==> ParseNumber(old(Rest())).Ok?
      ensures ok ==> Valid() && ParseNumber(old(Rest())) == Ok(n, Rest())
    {
      hide NumberRun, Strtod;
      ghost var s := Rest();
      var copy := new byte[NUMBER_CAPACITY + 1];
      var i := CopyNumber(content, offset, copy);
      copy[i] := 0;
      var scanned := Strtod(copy[..i]);
      ok, n := scanned.length != 0, scanned.value;
      if ok {
        NumberRemains(s);
        offset := offset + scanned.length;
        assert content[offset..] == s[scanned.length..];
      }
    }

    /** parse_string: both passes, and the offset moved behind the closing quote. */
    method ParseStringText() returns (ok: bool, text: Text)
      requires Valid()
      modifies `offset
      ensures ok <==> ParseString(old(Rest())).Ok?
      ensures ok ==> Valid() && ParseString(old(Rest())) == Ok(text, Rest())
    {
      hide Decode, ClosingQuote, Escapes;
      text := [];
      ghost var s := Rest();
      if content[offset] != QUOTE {
        return false, text;
      }
      StepSuffix(content, offset);
      var end, skipped;
      ok, end, skipped := ScanString(content, offset + 1);
      if !ok {
        return;
      }
      var allocation := end - offset - skipped;
      ghost var n := end - offset - 1;
      EscapesNone(content[offset + 1..]);
      RoomGrows(content[offset + 1..], 0, n);
      var output, length;
      ok, output, length := DecodeInto(content[offset + 1..], end - offset - 1, allocation + 1);
      if ok {
        StringRemains(s);
        text := CString(output[..length]);
        offset := end + 1;
        assert content[offset..] == s[n + 2..];
      }
    }

    /** The literals null, false and true. */
    method ParseLiteral(item: Node) returns (found: bool)
      requires Valid() && Childfree(item)
      modifies `offset, item`kind, item`tree
      ensures found <==> Literal(old(Rest())).Some?
      ensures !found ==> offset == old(offset)
      ensures found ==> item.Valid() && item.repr == {item}
      ensures found ==> Valid() && ParseValue(old(Rest()), depth) == Ok(item.tree, Rest())
    {
      hide ParseItems, ParseMembers, ParseString, ParseNumber, Skip, Node.Valid;
      ghost var s := Rest();
      ValueRemains(s, depth);
      if offset + 4 <= |content| && content[offset..offset + 4] == NULL_TEXT {
        assert StartsWith(s, NULL_TEXT);
        SetLeaf(item, NullKind, Null);
        offset := offset + 4;
        return true;
      }
      if offset + 5 <= |content| && content[offset..offset + 5] == FALSE_TEXT {
        assert StartsWith(s, FALSE_TEXT);
        SetLeaf(item, FalseKind, False);
        offset := offset + 5;
        return true;
      }
      if offset + 4 <= |content| && content[offset..offset + 4] == TRUE_TEXT {
        assert StartsWith(s, TRUE_TEXT);
        SetLeaf(item, TrueKind, True);
        offset := offset + 4;
        return true;
      }
      assert !StartsWith(s, NULL_TEXT) && !StartsWith(s, FALSE_TEXT) && !StartsWith(s, TRUE_TEXT);
      found := false;
    }

    /** parse_value: the offset moves behind the value exactly when the grammar has one here, and the
        item, with new nodes below it, becomes that value. */
    method ParseAny(item: Node) returns (ok: bool)
      requires Valid() && Childfree(item)
      modifies `offset, `depth, item`child, item`kind, item`valuestring, item`valuedouble, item`kids, item`repr,
        item`tree
      ensures ok <==> ParseValue(old(Rest()), old(depth)).Ok?
      ensures ok ==> item.Valid() && fresh(item.repr - {item})
      ensures ok ==> Valid() && depth == old(depth) && ParseValue(old(Rest()), depth) == Ok(item.tree, Rest())
      decreases |content| - offset, 5
    {
      hide ParseValue, ParseString, ParseNumber, Literal, Node.Valid;
      ok := ParseLiteral(item);
      if ok {
        return;
      }
      PlainValue(Rest(), depth);
      if content[offset] == QUOTE {
        var text;
        ok, text := ParseStringText();
        if ok {
          item.valuestring := text;
          SetLeaf(item, StringKind, String(text));
        }
      } else if content[offset] == MINUS || IsDigit(content[offset]) {
        var n;
        ok, n := ParseNumberText();
        if ok {
          item.valuedouble := n;
          SetLeaf(item, NumberKind, Number(n));
        }
      } else if content[offset] == OPEN_BRACKET {
        ok := ParseArray(item);
      } else if content[offset] == OPEN_BRACE {
        ok := ParseObject(item);
      }
    }

    /** One round of the elements loop: past the mark in front, the value, the blanks behind. */
    method ParseElement(item: Node) returns (ok: bool)
      requires Valid() && offset + 1 < |content| && Childfree(item)
      modifies `offset, `depth, item`child, item`kind, item`valuestring, item`valuedouble, item`kids, item`repr,
        item`tree
      ensures ok <==> ParseValue(Skip(old(content[offset + 1..])), old(depth)).Ok?
      ensures ok ==> Valid() && depth == old(depth) && old(offset) < offset
      ensures ok ==> item.Valid() && fresh(item.repr - {item})
      ensures ok ==> item.tree == ParseValue(Skip(old(content[offset + 1..])), depth).value
                     && Rest() == Skip(ParseValue(Skip(old(content[offset + 1..])), depth).rest)
      decreases |content| - offset, 0
    {
      hide ParseValue, Skip, Node.Valid;
      offset := offset + 1;
      SkipWhitespace();
      ValueRemains(Rest(), depth);
      ok := ParseAny(item);
      if ok {
        SkipWhitespace();
      }
    }

    /** A node for the next element, linked behind the others, and the element parsed into it. */
    method NextElement(head: Node?, current: Node?, ghost kids: seq<Node>, ghost below: set<Node>)
      returns (ok: bool, first: Node?, item: Node, ghost more: set<Node>)
      requires Valid() && offset + 1 < |content|
      requires Built(kids, below, head) && current == Last(kids)
      modifies `offset, `depth, kids`next
      ensures fresh(item) && fresh(more - below)
      ensures ok <==> ParseValue(Skip(old(content[offset + 1..])), old(depth)).Ok?
      ensures ok ==> Valid() && depth == old(depth) && old(offset) < offset
      ensures ok ==> Built(kids + [item], more, first)
      ensures ok ==>
                var found := ParseValue(Skip(old(content[offset + 1..])), depth);
                Trees(kids + [item]) == old(Trees(kids)) + [found.value] && Rest() == Skip(found.rest)
      decreases |content| - offset, 1
    {
      hide ParseValue, Skip, Node.Valid, Strung, Whole, Trees;
      first, item := Extend(head, current, kids, below);
      ok := ParseElement(item);
      more := below;
      if ok {
        WholeMore(kids, below, item);
        more := below + item.repr;
      }
    }

    /** parse_array's do-while loop, entered after a step back in front of the first element. */
    method ParseElements() returns (ok: bool, head: Node?, ghost kids: seq<Node>, ghost below: set<Node>)
      requires Valid() && offset > 0
      modifies `offset, `depth
      ensures ok <==> ParseItems(old(Rest()), old(depth)).Ok?
      ensures ok ==> Valid() && depth == old(depth) && old(offset) <= offset && content[offset] == CLOSE_BRACKET
      ensures ok ==> Built(kids, below, head) && fresh(below)
      ensures ok ==> ParseItems(old(Rest()), depth) == Ok(Trees(kids), content[offset + 1..])
      decreases |content| - offset + 1, 2
    {
      hide ParseValue, ParseItems, Skip, ItemsAhead, ItemsAheadAt, Node.Valid, Built, Trees;
      ghost var body := Rest();
      NoKids();
      head, kids, below := null, [], {};
      var current: Node? := null;
      offset := offset - 1;
      ItemsAheadStart(content, body, depth, offset);
      var more := true;
      while more
        invariant offset < |content| && depth == old(depth) && old(offset) <= if more then offset + 1 else offset
        invariant more ==> offset + 1 < |content|
        invariant Built(kids, below, head) && current == Last(kids) && fresh(kids) && fresh(below)
        invariant ItemsAhead(content, body, depth, Trees(kids), offset, more)
        decreases |content| - offset, more
      {
        ItemsAheadStep(content, body, depth, Trees(kids), offset);
        ok, head, current, below := NextElement(head, current, kids, below);
        if !ok {
          return;
        }
        kids := kids + [current];
        ItemsAheadNext(content, body, depth, Trees(kids), offset);
        more := content[offset] == COMMA;
      }
      ItemsAheadEnd(content, body, depth, Trees(kids), offset);
      ok := content[offset] == CLOSE_BRACKET;
    }

    /** Past the opening bracket and the blanks behind it. */
    method EnterList()
      requires Valid() && content[offset] != 0
      modifies `offset, `depth
      ensures Valid() && depth == old(depth) + 1 && old(offset) < offset
      ensures Rest() == Skip(old(Rest()[1..]))
    {
      hide Skip;
      StepSuffix(content, offset);
      depth := depth + 1;
      offset := offset + 1;
      SkipWhitespace();
    }

    /** The array's list of elements, from the opening to the closing bracket. */
    method ParseList() returns (ok: bool, head: Node?, ghost kids: seq<Node>, ghost below: set<Node>)
      requires Valid() && content[offset] == OPEN_BRACKET && depth < NESTING_LIMIT
      modifies `offset, `depth
      ensures ok <==> ParseValue(old(Rest()), old(depth)).Ok?
      ensures ok ==> offset + 1 < |content| && depth == old(depth)
      ensures ok ==> Built(kids, below, head) && fresh(below)
      ensures ok ==> ParseValue(old(Rest()), depth) == Ok(Array(Trees(kids)), content[offset + 1..])
      decreases |content| - offset, 3
    {
      hide ParseValue, ParseItems, Skip, Node.Valid, Built, Trees;
      ArrayUnfold(Rest(), depth);
      NoKids();
      head, kids, below := null, [], {};
      EnterList();
      StepSuffix(content, offset);
      ok := true;
      if content[offset] != CLOSE_BRACKET {
        ok, head, kids, below := ParseElements();
      }
      if ok {
        depth := depth - 1;
      }
    }

    /** parse_array. The text carries its terminator, so the offset is never out of reach. */
    method ParseArray(item: Node) returns (ok: bool)
      requires Valid() && content[offset] == OPEN_BRACKET
      modifies `offset, `depth, item`child, item`kind, item`valuestring, item`valuedouble, item`kids, item`repr,
        item`tree
      ensures ok <==> ParseValue(old(Rest()), old(depth)).Ok?
      ensures ok ==> item.Valid() && fresh(item.repr - {item})
      ensures ok ==> Valid() && depth == old(depth) && ParseValue(old(Rest()), depth) == Ok(item.tree, Rest())
      decreases |content| - offset, 4
    {
      hide ParseValue, ParseItems, Skip, Node.Valid, Built, Trees;
      if depth >= NESTING_LIMIT {
        ArrayUnfold(Rest(), depth);
        return false;
      }
      var head;
      ghost var kids, below;
      ok, head, kids, below := ParseList();
      if ok {
        Fill(item, ArrayKind, head, kids, below);
        offset := offset + 1;
      }
    }

    /** The key of a member, past its colon. */
    method ParseKey() returns (ok: bool, key: Text)
      requires Valid() && offset + 1 < |content|
      modifies `offset
      ensures ok <==> MemberKey(Skip(old(content[offset + 1..]))).Ok?
      ensures ok ==> Valid() && old(offset) < offset && MemberKey(Skip(old(content[offset + 1..]))) == Ok(key, Rest())
    {
      hide ParseString, Skip, Head;
      offset := offset + 1;
      SkipWhitespace();
      ok, key := ParseStringText();
      if !ok {
        return;
      }
      ok := ParseColon();
    }

    /** The colon behind a key, and the blanks around it. */
    method ParseColon() returns (ok: bool)
      requires Valid()
      modifies `offset
      ensures ok <==> Head(Skip(old(Rest())), COLON)
      ensures ok ==> Valid() && Rest() == Skip(Skip(old(Rest()))[1..]) && old(offset) <= offset
    {
      hide Skip;
      SkipWhitespace();
      StepSuffix(content, offset);
      if content[offset] != COLON {
        return false;
      }
      offset := offset + 1;
      SkipWhitespace();
      return true;
    }

    /** One round of the members loop: past the mark in front, key, colon, value, and the blanks behind. */
    method ParsePair(item: Node) returns (ok: bool)
      requires Valid() && offset + 1 < |content| && Childfree(item)
      modifies `offset, `depth, item`child, item`kind, item`valuestring, item`valuedouble, item`kids, item`repr,
        item`tree, item`name
      ensures ok <==> ParseMember(Skip(old(content[offset + 1..])), old(depth)).Ok?
      ensures ok ==> Valid() && depth == old(depth) && old(offset) < offset
      ensures ok ==> item.Valid() && fresh(item.repr - {item})
      ensures ok ==> Member(item.name, item.tree) == ParseMember(Skip(old(content[offset + 1..])), depth).value
                     && Rest() == Skip(ParseMember(Skip(old(content[offset + 1..])), depth).rest)
      decreases |content| - offset, 0
    {
      hide ParseValue, ParseMember, MemberKey, Skip, Node.Valid;
      MemberSplit(Skip(content[offset + 1..]), depth);
      var key;
      ok, key := ParseKey();
      if !ok {
        return;
      }
      item.name := key;
      ok := ParseAny(item);
      if ok {
        SkipWhitespace();
      }
    }

    /** A node for the next member, linked behind the others, and the member parsed into it. */
    method NextMember(head: Node?, current: Node?, ghost kids: seq<Node>, ghost below: set<Node>)
      returns (ok: bool, first: Node?, item: Node, ghost more: set<Node>)
      requires Valid() && offset + 1 < |content|
      requires Built(kids, below, head) && current == Last(kids)
      modifies `offset, `depth, kids`next
      ensures fresh(item) && fresh(more - below)
      ensures ok <==> ParseMember(Skip(old(content[offset + 1..])), old(depth)).Ok?
      ensures ok ==> Valid() && depth == old(depth) && old(offset) < offset
      ensures ok ==> Built(kids + [item], more, first)
      ensures ok ==>
                var found := ParseMember(Skip(old(content[offset + 1..])), depth);
                Members(kids + [item]) == old(Members(kids)) + [found.value] && Rest() == Skip(found.rest)
      decreases |content| - offset, 1
    {
      hide ParseMember, Skip, Node.Valid, Strung, Whole, Members;
      first, item := Extend(head, current, kids, below);
      ok := ParsePair(item);
      more := below;
      if ok {
        WholeMore(kids, below, item);
        more := below + item.repr;
      }
    }

    /** parse_object's do-while loop, entered after a step back in front of the first key. */
    method ParsePairs() returns (ok: bool, head: Node?, ghost kids: seq<Node>, ghost below: set<Node>)
      requires Valid() && offset > 0
      modifies `offset, `depth
      ensures ok <==> ParseMembers(old(Rest()), old(depth)).Ok?
      ensures ok ==> Valid() && depth == old(depth) && old(offset) <= offset && content[offset] == CLOSE_BRACE
      ensures ok ==> Built(kids, below, head) && fresh(below)
      ensures ok ==> ParseMembers(old(Rest()), depth) == Ok(Members(kids), content[offset + 1..])
      decreases |content| - offset + 1, 2
    {
      hide ParseMember, ParseMembers, Skip, MembersAhead, MembersAheadAt, Node.Valid, Built, Members;
      ghost var body := Rest();
      NoKids();
      head, kids, below := null, [], {};
      var current: Node? := null;
      offset := offset - 1;
      MembersAheadStart(content, body, depth, offset);
      var more := true;
      while more
        invariant offset < |content| && depth == old(depth) && old(offset) <= if more then offset + 1 else offset
        invariant more ==> offset + 1 < |content|
        invariant Built(kids, below, head) && current == Last(kids) && fresh(kids) && fresh(below)
        invariant MembersAhead(content, body, depth, Members(kids), offset, more)
        decreases |content| - offset, more
      {
        MembersAheadStep(content, body, depth, Members(kids), offset);
        ok, head, current, below := NextMember(head, current, kids, below);
        if !ok {
          return;
        }
        kids := kids + [current];
        MembersAheadNext(content, body, depth, Members(kids), offset);
        more := content[offset] == COMMA;
      }
      MembersAheadEnd(content, body, depth, Members(kids), offset);
      ok := content[offset] == CLOSE_BRACE;
    }

    /** The object's list of members, from the opening to the closing bracket. */
    method ParseBody() returns (ok: bool, head: Node?, ghost kids: seq<Node>, ghost below: set<Node>)
      requires Valid() && content[offset] == OPEN_BRACE && depth < NESTING_LIMIT
      modifies `offset, `depth
      ensures ok <==> ParseValue(old(Rest()), old(depth)).Ok?
      ensures ok ==> offset + 1 < |content| && depth == old(depth)
      ensures ok ==> Built(kids, below, head) && fresh(below)
      ensures ok ==> ParseValue(old(Rest()), depth) == Ok(Object(Members(kids)), content[offset + 1..])
      decreases |content| - offset, 3
    {
      hide ParseValue, ParseMembers, Skip, Node.Valid, Built, Members;
      ObjectUnfold(Rest(), depth);
      NoKids();
      head, kids, below := null, [], {};
      EnterList();
      StepSuffix(content, offset);
      ok := true;
      if content[offset] != CLOSE_BRACE {
        ok, head, kids, below := ParsePairs();
      }
      if ok {
        depth := depth - 1;
      }
    }

    /** parse_object. */
    method ParseObject(item: Node) returns (ok: bool)
      requires Valid() && content[offset] == OPEN_BRACE
      modifies `offset, `depth, item`child, item`kind, item`valuestring, item`valuedouble, item`kids, item`repr,
        item`tree
      ensures ok <==> ParseValue(old(Rest()), old(depth)).Ok?
      ensures ok ==> item.Valid() && fresh(item.repr - {item})
      ensures ok ==> Valid() && depth == old(depth) && ParseValue(old(Rest()), depth) == Ok(item.tree, Rest())
      decreases |content| - offset, 4
    {
      hide ParseValue, ParseMembers, Skip, Node.Valid, Built, Members;
      if depth >= NESTING_LIMIT {
        ObjectUnfold(Rest(), depth);
        return false;
      }
      var head;
      ghost var kids, below;
      ok, head, kids, below := ParseBody();
      if ok {
        Fill(item, ObjectKind, head, kids, below);
        offset := offset + 1;
      }
    }

    /** skip_utf8_bom, at the start of the text. */
    method SkipByteOrderMark()
      requires Valid() && offset == 0
      modifies `offset
      ensures Valid() && Rest() == SkipBom(content)
    {
      if 4 < |content| && content[..3] == BOM {
        offset := 3;
      }
    }
  }

  /** The literal a text begins with. */
  function Literal(s: Text): Option<Json> {
    if StartsWith(s, NULL_TEXT) then Some(Null)
    else if StartsWith(s, FALSE_TEXT) then Some(False)
    else if StartsWith(s, TRUE_TEXT) then Some(True)
    else None
  }

  /** A value that is no literal, by its first byte. */
  lemma PlainValue(s: Text, depth: nat)
    requires s != [] && Literal(s).None?
    ensures s[0] == QUOTE ==>
              ParseValue(s, depth) ==
              match ParseString(s) case Fail => Fail case Ok(text, rest) => Ok(String(text), rest)
    ensures s[0] == MINUS || IsDigit(s[0]) ==>
              ParseValue(s, depth) == match ParseNumber(s) case Fail => Fail case Ok(n, rest) => Ok(Number(n), rest)
    ensures s[0] != QUOTE && s[0] != MINUS && !IsDigit(s[0]) && s[0] != OPEN_BRACKET && s[0] != OPEN_BRACE ==>
              ParseValue(s, depth).Fail?
  {
    hide ParseString, ParseNumber, ParseItems, ParseMembers;
  }

  lemma ArrayUnfold(s: Text, depth: nat)
    requires Head(s, OPEN_BRACKET)
    ensures var body := Skip(s[1..]);
            ParseValue(s, depth) ==
            if depth >= NESTING_LIMIT then Fail
            else if Head(body, CLOSE_BRACKET) then Ok(Array([]), body[1..])
            else match ParseItems(body, depth + 1) case Fail => Fail case Ok(items, rest) => Ok(Array(items), rest)
  {
    NoLiteralHead(s);
  }

  /** The elements read so far, and the offset at the mark behind them: a comma (or the start)
      when there are more to come. */
  ghost predicate ItemsAhead(content: Text, body: Text, depth: nat, items: seq<Json>, i: nat, more: bool) {
    && i < |content|
    && ParseItems(body, depth) ==
       if more then match ParseItems(content[i + 1..], depth) case Fail => Fail
         case Ok(tail, rest) => Ok(items + tail, rest)
       else if content[i] == CLOSE_BRACKET then Ok(items, content[i + 1..]) else Fail
  }

  lemma ItemsAheadStart(content: Text, body: Text, depth: nat, i: nat)
    requires i < |content| && content[i + 1..] == body
    ensures ItemsAhead(content, body, depth, [], i, true)
  {
    if ParseItems(body, depth).Ok? {
      assert [] + ParseItems(body, depth).value == ParseItems(body, depth).value;
    }
  }

  /** What one round finds: nothing, or a value and the text at the mark behind it. */
  ghost predicate ItemsAheadAt(body: Text, depth: nat, items: seq<Json>, s: Text) {
    && s != []
    && ParseItems(body, depth) ==
       if Head(s, COMMA) then match ParseItems(s[1..], depth) case Fail => Fail
         case Ok(tail, rest) => Ok(items + tail, rest)
       else if Head(s, CLOSE_BRACKET) then Ok(items, s[1..]) else Fail
  }

  lemma ItemsAheadStep(content: Text, body: Text, depth: nat, items: seq<Json>, i: nat)
    requires ItemsAhead(content, body, depth, items, i, true)
    ensures var r := ParseValue(Skip(content[i + 1..]), depth);
            if r.Fail? then ParseItems(body, depth).Fail?
            else Skip(r.rest) != [] ==> ItemsAheadAt(body, depth, items + [r.value], Skip(r.rest))
  {
    var r := ParseValue(Skip(content[i + 1..]), depth);
    if r.Ok? && Head(Skip(r.rest), COMMA) && ParseItems(Skip(r.rest)[1..], depth).Ok? {
      var tail := ParseItems(Skip(r.rest)[1..], depth).value;
      assert items + ([r.value] + tail) == items + [r.value] + tail;
    }
  }

  lemma ItemsAheadNext(content: Text, body: Text, depth: nat, items: seq<Json>, i: nat)
    requires i < |content| && ItemsAheadAt(body, depth, items, content[i..])
    ensures ItemsAhead(content, body, depth, items, i, content[i] == COMMA)
  {
    StepSuffix(content, i);
  }

  lemma ItemsAheadEnd(content: Text, body: Text, depth: nat, items: seq<Json>, i: nat)
    requires ItemsAhead(content, body, depth, items, i, false)
    ensures ParseItems(body, depth) == if content[i] == CLOSE_BRACKET then Ok(items, content[i + 1..]) else Fail
  {
  }

  lemma ObjectUnfold(s: Text, depth: nat)
    requires Head(s, OPEN_BRACE)
    ensures var body := Skip(s[1..]);
            ParseValue(s, depth) ==
            if depth >= NESTING_LIMIT then Fail
            else if Head(body, CLOSE_BRACE) then Ok(Object([]), body[1..])
            else match ParseMembers(body, depth + 1) case Fail => Fail
              case Ok(members, rest) => Ok(Object(members), rest)
  {
    NoLiteralHead(s);
  }

  ghost predicate MembersAhead(content: Text, body: Text, depth: nat, members: seq<Member>, i: nat, more: bool) {
    && i < |content|
    && ParseMembers(body, depth) ==
       if more then match ParseMembers(content[i + 1..], depth) case Fail => Fail
         case Ok(tail, rest) => Ok(members + tail, rest)
       else if content[i] == CLOSE_BRACE then Ok(members, content[i + 1..]) else Fail
  }

  lemma MembersAheadStart(content: Text, body: Text, depth: nat, i: nat)
    requires i < |content| && content[i + 1..] == body
    ensures MembersAhead(content, body, depth, [], i, true)
  {
    if ParseMembers(body, depth).Ok? {
      assert [] + ParseMembers(body, depth).value == ParseMembers(body, depth).value;
    }
  }

  /** What one round finds: nothing, or a value and the text at the mark behind it. */
  ghost predicate MembersAheadAt(body: Text, depth: nat, members: seq<Member>, s: Text) {
    && s != []
    && ParseMembers(body, depth) ==
       if Head(s, COMMA) then match ParseMembers(s[1..], depth) case Fail => Fail
         case Ok(tail, rest) => Ok(members + tail, rest)
       else if Head(s, CLOSE_BRACE) then Ok(members, s[1..]) else Fail
  }

  lemma MembersAheadStep(content: Text, body: Text, depth: nat, members: seq<Member>, i: nat)
    requires MembersAhead(content, body, depth, members, i, true)
    ensures var r := ParseMember(Skip(content[i + 1..]), depth);
            if r.Fail? then ParseMembers(body, depth).Fail?
            else Skip(r.rest) != [] ==> MembersAheadAt(body, depth, members + [r.value], Skip(r.rest))
  {
    var r := ParseMember(Skip(content[i + 1..]), depth);
    if r.Ok? && Head(Skip(r.rest), COMMA) && ParseMembers(Skip(r.rest)[1..], depth).Ok? {
      var tail := ParseMembers(Skip(r.rest)[1..], depth).value;
      assert members + ([r.value] + tail) == members + [r.value] + tail;
    }
  }

  lemma MembersAheadNext(content: Text, body: Text, depth: nat, members: seq<Member>, i: nat)
    requires i < |content| && MembersAheadAt(body, depth, members, content[i..])
    ensures MembersAhead(content, body, depth, members, i, content[i] == COMMA)
  {
    StepSuffix(content, i);
  }

  lemma MembersAheadEnd(content: Text, body: Text, depth: nat, members: seq<Member>, i: nat)
    requires MembersAhead(content, body, depth, members, i, false)
    ensures ParseMembers(body, depth) == if content[i] == CLOSE_BRACE then Ok(members, content[i + 1..]) else Fail
  {
  }

  /** Copies the number bytes at `offset` out of the text. */
  method CopyNumber(content: Text, offset: nat, copy: array<byte>) returns (i: nat)
    requires offset < |content| && copy.Length == NUMBER_CAPACITY + 1
    modifies copy
    ensures i == NumberRun(content[offset..], NUMBER_CAPACITY) && offset + i <= |content|
    ensures copy[..i] == content[offset..][..i]
  {
    hide NumberRun;
    i := 0;
    while i < NUMBER_CAPACITY && offset + i < |content| && IsNumberByte(content[offset + i])
      invariant i <= NUMBER_CAPACITY && offset + i <= |content|
      invariant forall k {:trigger copy[k]} :: 0 <= k < i ==> copy[k] == content[offset + k]
      invariant NumberRun(content[offset..], NUMBER_CAPACITY) ==
                i + NumberRun(content[offset..][i..], NUMBER_CAPACITY - i)
      decreases NUMBER_CAPACITY - i
    {
      copy[i] := content[offset + i];
      i := i + 1;
    }
  }

  /** The scan from `start` has come to `end`, over `skipped` escapes. */
  ghost predicate Scanned(text: Text, start: nat, end: nat, skipped: nat) {
    && start <= end <= |text|
    && (ClosingQuote(text[start..]).Some? <==> ClosingQuote(text[end..]).Some?)
    && (ClosingQuote(text[end..]).Some? ==>
          var q := end + ClosingQuote(text[end..]).value;
          ClosesAt(text, start, q) && Escapes(text[start..], q - start) == skipped + Escapes(text[end..], q - end))
  }

  lemma ScanStart(text: Text, start: nat)
    requires start <= |text|
    ensures Scanned(text, start, start, 0)
  {
  }

  lemma ScanStep(text: Text, start: nat, end: nat, skipped: nat)
    requires Scanned(text, start, end, skipped) && end < |text| && text[end] != QUOTE
    ensures text[end] != BACKSLASH ==> Scanned(text, start, end + 1, skipped)
    ensures text[end] == BACKSLASH && end + 1 < |text| ==> Scanned(text, start, end + 2, skipped + 1)
    ensures text[end] == BACKSLASH && end + 1 >= |text| ==> ClosingQuote(text[start..]).None?
  {
    StepSuffix(text, end);
  }

  lemma ScanEnd(text: Text, start: nat, end: nat, skipped: nat)
    requires Scanned(text, start, end, skipped)
    ensures end == |text| ==> ClosingQuote(text[start..]).None?
    ensures end < |text| && text[end] == QUOTE ==>
              ClosesAt(text, start, end) && skipped == Escapes(text[start..], end - start)
  {
  }

  /** parse_string's first pass: the closing quote and the number of escapes before it. */
  method ScanString(content: Text, start: nat) returns (ok: bool, end: nat, skipped: nat)
    requires start <= |content|
    ensures ok <==> ClosingQuote(content[start..]).Some?
    ensures ok ==> ClosesAt(content, start, end) && skipped == Escapes(content[start..], end - start)
  {
    hide ClosingQuote, Escapes, Scanned;
    end, skipped := start, 0;
    ScanStart(content, start);
    while end < |content| && content[end] != QUOTE
      invariant start <= end <= |content| && Scanned(content, start, end, skipped)
    {
      ScanStep(content, start, end, skipped);
      if content[end] == BACKSLASH {
        if end + 1 >= |content| {
          return false, end, skipped;
        }
        skipped := skipped + 1;
        end := end + 1;
      }
      end := end + 1;
    }
    ScanEnd(content, start, end, skipped);
    ok := end < |content|;
  }

  /** cJSON_ParseWithOpts on a C string: a new tree of nodes, or none. */
  method ParseText(text: Text, requireNullTerminated: bool) returns (root: Node?, ghost rest: Text)
    requires NulFree(text)
    ensures root != null <==> ParseWithOpts(text, requireNullTerminated).Ok?
    ensures root != null ==>
              root.Valid() && fresh(root.repr) && ParseWithOpts(text, requireNullTerminated) == Ok(root.tree, rest)
  {
    hide ParseValue, Skip, SkipBom, Node.Valid;
    var p := new Parser(text + [0]);
    var item := new Node();
    p.SkipByteOrderMark();
    p.SkipWhitespace();
    var ok := p.ParseAny(item);
    root, rest := null, [];
    if ok {
      if requireNullTerminated {
        p.SkipWhitespace();
        ok := p.content[p.offset] == 0;
      }
      rest := p.Rest();
    }
    if ok {
      root := item;
    }
  }
}
