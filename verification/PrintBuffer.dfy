/** The printer: it writes a tree into a buffer that grows as needed, or into one that may not grow. */
module PrintBuffer {
  import opened Bytes
  import opened Decimal
  import opened JsonTree
  import opened NodeList
  import opened NodeTree

  const INT_MAX: nat := 0x7FFF_FFFF

  /** Bytes a value needs behind its text for the printer to agree to print it. */
  function Slack(v: Json): nat {
    if v.Number? then 1 else 2
  }

  /** An array element with what separates it from the next. */
  function ElementText(v: Json, more: bool, L: Layout, d: nat): Text {
    Render(v, L, d) + Separator(more, L.afterComma)
  }

  /** An object member with what separates it from the next. */
  function MemberText(m: Member, more: bool, L: Layout, d: nat): Text {
    RenderMember(m, L, d) + (Separator(more, []) + L.afterMember)
  }

  /** Copies the first bytes of a block into a new block of another size. */
  method Reallocate(from: array<byte>, size: nat) returns (block: array<byte>)
    ensures fresh(block) && block.Length == size
    ensures forall k {:trigger block[k]} :: 0 <= k < size && k < from.Length ==> block[k] == from[k]
  {
    block := new byte[size];
    var n := if size < from.Length then size else from.Length;
    forall k | 0 <= k < n {
      block[k] := from[k];
    }
  }

  /** strcpy: the text and its NUL, at a place in a block. */
  method Strcpy(block: array<byte>, at: nat, text: Text)
    requires at + |text| < block.Length
    modifies block
    ensures forall k {:trigger block[k]} :: 0 <= k < at ==> block[k] == old(block[k])
    ensures forall k {:trigger block[k]} :: at <= k < at + |text| ==> block[k] == text[k - at]
    ensures block[at + |text|] == 0
    ensures forall k {:trigger block[k]} :: at + |text| < k < block.Length ==> block[k] == old(block[k])
  {
    var i := 0;
    while i < |text|
      invariant 0 <= i <= |text|
      invariant forall k {:trigger block[k]} :: 0 <= k < at ==> block[k] == old(block[k])
      invariant forall k {:trigger block[k]} :: at <= k < at + i ==> block[k] == text[k - at]
      invariant forall k {:trigger block[k]} :: at + i <= k < block.Length ==> block[k] == old(block[k])
    {
      block[at + i] := text[i];
      i := i + 1;
    }
    block[at + |text|] := 0;
  }

  /** Writes bytes without a NUL. */
  method WriteBytes(block: array<byte>, at: nat, text: Text)
    requires at + |text| <= block.Length
    modifies block
    ensures forall k {:trigger block[k]} :: 0 <= k < at || at + |text| <= k < block.Length ==> block[k] == old(block[k])
    ensures block[at..at + |text|] == text
  {
    var i := 0;
    while i < |text|
      invariant 0 <= i <= |text|
      invariant forall k {:trigger block[k]} :: 0 <= k < at || at + i <= k < block.Length ==> block[k] == old(block[k])
      invariant forall k {:trigger block[k]} :: at <= k < at + i ==> block[k] == text[k - at]
    {
      block[at + i] := text[i];
      i := i + 1;
    }
  }

  /** strlen from a place in a block. */
  method Strlen(block: array<byte>, at: nat, ghost end: nat) returns (n: nat)
    requires at <= end < block.Length && block[end] == 0
    requires forall k {:trigger block[k]} :: at <= k < end ==> block[k] != 0
    ensures n == end - at
  {
    n := 0;
    while block[at + n] != 0
      invariant at + n <= end
      decreases end - n
    {
      n := n + 1;
    }
  }

  /** A text behind what the block holds up to `at`, and a NUL behind it if asked. */
  method WriteBehind(block: array<byte>, at: nat, text: Text, terminate: bool)
    requires at + |text| < block.Length
    modifies block
    ensures block[..at + |text|] == old(block[..at]) + text
  {
    ghost var before := block[..at];
    WriteBytes(block, at, text);
    if terminate {
      block[at + |text|] := 0;
    }
    assert block[..at] == before;
    assert block[..at + |text|] == block[..at] + block[at..at + |text|];
  }

  class Printer {
    var buffer: array<byte>
    var length: nat
    var offset: nat
    var depth: nat
    const noalloc: bool
    const format: bool

    constructor (buffer: array<byte>, length: nat, noalloc: bool, format: bool)
      requires length <= buffer.Length && length <= INT_MAX
      ensures this.buffer == buffer && this.length == length && offset == 0 && depth == 0
      ensures this.noalloc == noalloc && this.format == format
    {
      this.buffer, this.length, this.offset, this.depth := buffer, length, 0, 0;
      this.noalloc, this.format := noalloc, format;
    }

    ghost predicate Valid()
      reads `buffer, `length, `offset
    {
      length <= buffer.Length && length <= INT_MAX && if length == 0 then offset == 0 else offset < length
    }

    /** How large the buffer may become. */
    ghost function Capacity(): nat
      reads this
    {
      if noalloc then length else INT_MAX
    }

    /** The text printed before `offset`. */
    ghost function Text(): (t: Text)
      requires offset <= buffer.Length
      reads `offset, `buffer, buffer
      ensures |t| == offset
    {
      buffer[..offset]
    }

    /** `text` and a NUL stand in the buffer; the offset is somewhere behind `start`. */
    ghost predicate Holds(start: nat, text: Text)
      reads `buffer, `length, `offset, buffer
    {
      && Valid() && start <= offset <= |text| < length
      && buffer[..|text|] == text && buffer[|text|] == 0
    }

    lemma HoldsFrom(start: nat, later: nat, text: Text)
      requires Holds(later, text) && start <= later
      ensures Holds(start, text)
    {
    }

    /** The buffer is the old one or a new one, and a fixed buffer stays. */
    twostate predicate Moved()
      reads this
    {
      (buffer == old(buffer) || fresh(buffer)) && (noalloc ==> buffer == old(buffer) && length == old(length))
    }

    /** ensure: room for `needed` more bytes and a NUL, in a larger block if need be. */
    method Ensure(needed: nat) returns (ok: bool)
      requires Valid()
      modifies this`buffer, this`length
      ensures Valid() && Moved()
      ensures ok <==> offset + needed + 1 <= Capacity()
      ensures ok ==> offset + needed + 1 <= length && Text() == old(Text())
      ensures !ok ==> buffer == old(buffer) && length == old(length)
    {
      if length > 0 && offset >= length {
        return false;
      }
      if needed > INT_MAX {
        return false;
      }
      var total := needed + offset + 1;
      if total <= length {
        return true;
      }
      if noalloc {
        return false;
      }
      var newsize;
      if total > INT_MAX / 2 {
        if total <= INT_MAX {
          newsize := INT_MAX;
        } else {
          return false;
        }
      } else {
        newsize := total * 2;
      }
      buffer := Reallocate(buffer, newsize);
      length := newsize;
      ok := true;
    }

    /** update_offset: jump behind the text that was printed last. */
    method UpdateOffset(ghost before: Text, ghost added: Text)
      requires Holds(|before|, before + added) && NulFree(added)
      modifies this`offset
      ensures offset == |before| + |added| && Valid() && Text() == before + added
    {
      ghost var text := before + added;
      assert forall k {:trigger buffer[k]} :: offset <= k < |text| ==>
             buffer[k] == buffer[..|text|][k] == added[k - |before|];
      var n := Strlen(buffer, offset, |text|);
      offset := offset + n;
    }

    /** Reserves room and writes a text with its NUL at the offset, which stays. */
    method Put(text: Text, room: nat) returns (ok: bool)
      requires Valid() && |text| <= room
      modifies this`buffer, this`length, buffer
      ensures Valid() && Moved()
      ensures ok <==> offset + room + 1 <= Capacity()
      ensures ok ==> Holds(offset, old(Text()) + text)
    {
      ok := Ensure(room);
      if ok {
        ghost var before := Text();
        Strcpy(buffer, offset, text);
        assert buffer[..offset] == before;
        assert buffer[offset..offset + |text|] == text;
        assert buffer[..offset + |text|] == buffer[..offset] + buffer[offset..offset + |text|];
      }
    }

    /** Reserves room, writes a text, with a NUL behind it if asked, and moves the offset. */
    method Emit(text: Text, room: nat, terminate: bool) returns (ok: bool)
      requires Valid() && |text| <= room
      modifies this`buffer, this`length, this`offset, buffer
      ensures Valid() && Moved()
      ensures ok <==> old(offset) + room + 1 <= Capacity()
      ensures ok ==> offset == old(offset) + |text| && Text() == old(Text()) + text
    {
      ok := Ensure(room);
      if ok {
        WriteBehind(buffer, offset, text, terminate);
        offset := offset + |text|;
      }
    }

    // ---- strings ------------------------------------------------------------

    /** print_string_ptr on a string (a null key prints like an empty one). */
    method PrintString(s: Text) returns (ok: bool)
      requires Valid()
      modifies this`buffer, this`length, buffer
      ensures Valid() && Moved()
      ensures ok <==> offset + |Quote(s)| + 2 <= Capacity()
      ensures ok ==> Holds(offset, old(Text()) + Quote(s))
    {
      hide Escape, Quote;
      QuoteLength(s);
      var escapes := CountEscapes(s);
      var length := |s| + escapes;
      ok := Ensure(length + 3);
      if ok {
        StoreBehind(buffer, offset, s, escapes);
      }
    }

    // ---- values -------------------------------------------------------------

    ghost function L(): Layout {
      LayoutOf(format)
    }

    /** print_value: of a valid node, succeeds exactly when the text of its tree and the slack fit, and
        then leaves the text. */
    method PrintValue(item: Node) returns (ok: bool)
      requires Valid() && item.Valid() && Printable(item.tree)
      modifies this, buffer
      ensures Valid() && Moved()
      ensures ok <==> old(offset) + |Render(item.tree, L(), old(depth))| + Slack(item.tree) <= Capacity()
      ensures ok ==> depth == old(depth) && Holds(old(offset), old(Text()) + Render(item.tree, L(), old(depth)))
      decreases item.repr, 3
    {
      hide Node.Valid, Holds, Text, Trees, Members, Linked, PrintableItems, PrintableMembers;
      ValidParts(item);
      match item.kind
      case NullKind => ok := Put(NULL_TEXT, 5);
      case FalseKind => ok := Put(FALSE_TEXT, 6);
      case TrueKind => ok := Put(TRUE_TEXT, 5);
      case NumberKind => ok := PrintNumber(item.valuedouble);
      case StringKind => ok := PrintString(item.valuestring);
      case ArrayKind => ok := PrintArray(item);
      case ObjectKind => ok := PrintObject(item);
    }

    /** print_number, for the integers it prints digit by digit. */
    method PrintNumber(n: real) returns (ok: bool)
      requires Valid() && PrintableNumber(n)
      modifies this`buffer, this`length, this`offset, buffer
      ensures Valid() && Moved()
      ensures ok <==> old(offset) + |NumberText(n)| + 1 <= Capacity()
      ensures ok ==> Holds(old(offset), old(Text()) + NumberText(n))
    {
      ok := Put(NumberText(n), |NumberText(n)|);
      if ok {
        offset := offset + |NumberText(n)|;
      }
    }

    /** One child and the offset moved behind it. */
    method PrintChild(item: Node) returns (ok: bool)
      requires Valid() && item.Valid() && Printable(item.tree)
      modifies this, buffer
      ensures Valid() && Moved()
      ensures ok <==> old(offset) + |Render(item.tree, L(), old(depth))| + Slack(item.tree) <= Capacity()
      ensures ok ==> depth == old(depth) && Text() == old(Text()) + Render(item.tree, L(), depth)
      decreases item.repr, 4
    {
      hide Node.Valid, Render, Printable;
      ghost var before, text := Text(), Render(item.tree, L(), depth);
      RenderNoNul(item.tree, format, depth);
      ok := PrintValue(item);
      if ok {
        UpdateOffset(before, text);
      }
    }

    /** One array element with what separates it from the next. */
    method PrintElement(element: Node) returns (ok: bool)
      requires Valid() && element.Valid() && Printable(element.tree)
      modifies this, buffer
      ensures Valid() && Moved()
      ensures var text := ElementText(element.tree, element.next != null, L(), old(depth));
              if ok then
                depth == old(depth) && Text() == old(Text()) + text
              else old(offset) + |text| + 2 > Capacity()
      decreases element.repr, 5
    {
      hide Node.Valid, Render, Printable;
      ghost var before, value := Text(), Render(element.tree, L(), depth);
      ok := PrintChild(element);
      if ok && element.next != null {
        var text := [COMMA] + (if format then [SPACE] else []);
        ok := Emit(text, |text| + 1, true);
        assert before + value + text == before + (value + text);
      }
    }

    /** The elements of an array, one after the other along the list. */
    method PrintElements(owner: Node) returns (ok: bool)
      requires Valid() && owner.Valid() && PrintableItems(Trees(owner.kids))
      modifies this, buffer
      ensures Valid() && Moved()
      ensures var text := RenderItems(Trees(owner.kids), L(), old(depth));
              if ok then depth == old(depth) && Text() == old(Text()) + text
              else old(offset) + |text| + 2 > Capacity()
      decreases owner.repr, 1
    {
      hide Node.Valid, Text, RenderItems, Trees, Linked, Node.Spells, Printable, PrintableItems, ElementText;
      ghost var items := Trees(owner.kids);
      ghost var before, text := Text(), RenderItems(items, L(), depth);
      ghost var done: Text := [];
      ok := true;
      var element := owner.child;
      FirstChild(owner);
      ghost var i := 0;
      assert items[0..] == items;
      while element != null
        invariant 0 <= i <= |items| == |owner.kids| && element == if i < |items| then owner.kids[i] else null
        invariant Valid() && Moved() && PrintableItems(items[i..]) && owner.Valid()
        invariant depth == old(depth) && Text() == before + done
        invariant text == done + RenderItems(items[i..], L(), depth)
        decreases |items| - i
      {
        ghost var printed := ElementText(items[i], i + 1 < |items|, L(), depth);
        ElementStep(done, items, i, L(), depth);
        ChildAt(owner, i);
        ok := PrintElement(element);
        if !ok {
          return;
        }
        done := done + printed;
        element := element.next;
        i := i + 1;
      }
      NothingLeft(items, [], L(), depth);
    }

    /** print_array. */
    method PrintArray(item: Node) returns (ok: bool)
      requires Valid() && item.Valid() && PrintableItems(Trees(item.kids))
      modifies this, buffer
      ensures Valid() && Moved()
      ensures ok <==> old(offset) + |Render(Array(Trees(item.kids)), L(), old(depth))| + 2 <= Capacity()
      ensures ok ==> depth == old(depth)
                     && Holds(old(offset), old(Text()) + Render(Array(Trees(item.kids)), L(), old(depth)))
      decreases item.repr, 2
    {
      hide Node.Valid, Text, Holds, Render, RenderItems, Trees, PrintableItems;
      ghost var before, inner := Text(), RenderItems(Trees(item.kids), L(), depth + 1);
      ArrayText(Trees(item.kids), L(), depth);
      ok := Emit([OPEN_BRACKET], 1, false);
      if !ok {
        return;
      }
      depth := depth + 1;
      ok := PrintElements(item);
      if !ok {
        return;
      }
      ok := Put([CLOSE_BRACKET], 2);
      if ok {
        HoldsFrom(old(offset), offset, before + [OPEN_BRACKET] + inner + [CLOSE_BRACKET]);
        Grouped(before, [OPEN_BRACKET], inner, [CLOSE_BRACKET]);
        depth := depth - 1;
      }
    }

    /** The tabs in front of a key. */
    method PrintIndent() returns (ok: bool)
      requires Valid()
      modifies this`buffer, this`length, this`offset, buffer
      ensures Valid() && Moved()
      ensures var tabs := Repeat(L().indent, depth);
              if ok then Text() == old(Text()) + tabs else old(offset) + |tabs| + 1 > Capacity()
    {
      RepeatLength(L().indent, depth);
      ok := true;
      if format {
        ok := Emit(Repeat([TAB], depth), depth, false);
      }
    }

    /** The key and the offset moved behind it. */
    method PrintName(key: Text) returns (ok: bool)
      requires Valid() && NulFree(key)
      modifies this`buffer, this`length, this`offset, buffer
      ensures Valid() && Moved()
      ensures if ok then Text() == old(Text()) + Quote(key) else old(offset) + |Quote(key)| + 2 > Capacity()
    {
      ghost var before := Text();
      QuoteNoNul(key);
      ok := PrintString(key);
      if ok {
        UpdateOffset(before, Quote(key));
      }
    }

    /** The indentation, the key and the colon of one member. */
    method PrintKey(key: Text) returns (ok: bool)
      requires Valid() && NulFree(key)
      modifies this, buffer
      ensures Valid() && Moved() && depth == old(depth)
      ensures var text := Repeat(L().indent, old(depth)) + Quote(key) + [COLON] + L().afterColon;
              if ok then Text() == old(Text()) + text else old(offset) + |text| + 1 > Capacity()
    {
      hide Text, Quote;
      ghost var before, tabs := Text(), Repeat(L().indent, depth);
      ok := PrintIndent();
      if !ok {
        return;
      }
      ok := PrintName(key);
      if !ok {
        return;
      }
      var colon := [COLON] + (if format then [TAB] else []);
      ok := Emit(colon, |colon|, false);
      if ok {
        assert before + tabs + Quote(key) + colon == before + (tabs + Quote(key) + [COLON] + L().afterColon);
      }
    }

    /** One object member with what separates it from the next. */
    method PrintMember(item: Node) returns (ok: bool)
      requires Valid() && item.Valid() && NulFree(item.name) && Printable(item.tree)
      modifies this, buffer
      ensures Valid() && Moved()
      ensures var text := MemberText(Member(item.name, item.tree), item.next != null, L(), old(depth));
              if ok then
                depth == old(depth) && Text() == old(Text()) + text
              else old(offset) + |text| + 2 > Capacity()
      decreases item.repr, 5
    {
      hide Node.Valid, Text, Escape, Quote, Render, RenderMember, Repeat, Separator, Printable;
      ghost var before, m := Text(), Member(item.name, item.tree);
      ghost var named, valued := Repeat(L().indent, depth) + Quote(m.key) + [COLON] + L().afterColon,
        Render(m.value, L(), depth);
      MemberParts(m, L(), depth);
      SeparatorParts(item.next != null, format);
      ok := PrintKey(item.name);
      if !ok {
        return;
      }
      ok := PrintChild(item);
      if !ok {
        return;
      }
      var separator := (if item.next != null then [COMMA] else []) + (if format then [NEWLINE] else []);
      ok := Emit(separator, |separator| + 1, true);
      Grouped(before, named, valued, separator);
    }

    /** The members of an object, one after the other along the list. */
    method PrintMembers(owner: Node) returns (ok: bool)
      requires Valid() && owner.Valid() && PrintableMembers(Members(owner.kids))
      modifies this, buffer
      ensures Valid() && Moved()
      ensures var text := RenderMembers(Members(owner.kids), L(), old(depth));
              if ok then depth == old(depth) && Text() == old(Text()) + text
              else old(offset) + |text| + 2 > Capacity()
      decreases owner.repr, 1
    {
      hide Node.Valid, Text, RenderMembers, Members, Linked, Node.Spells, Printable, PrintableMembers, MemberText;
      ghost var members := Members(owner.kids);
      ghost var before, text := Text(), RenderMembers(members, L(), depth);
      ghost var done: Text := [];
      ok := true;
      var item := owner.child;
      FirstChild(owner);
      ghost var i := 0;
      assert members[0..] == members;
      while item != null
        invariant 0 <= i <= |members| == |owner.kids| && item == if i < |members| then owner.kids[i] else null
        invariant Valid() && Moved() && PrintableMembers(members[i..]) && owner.Valid()
        invariant depth == old(depth) && Text() == before + done
        invariant text == done + RenderMembers(members[i..], L(), depth)
        decreases |members| - i
      {
        ghost var printed := MemberText(members[i], i + 1 < |members|, L(), depth);
        MemberStep(done, members, i, L(), depth);
        ChildAt(owner, i);
        ok := PrintMember(item);
        if !ok {
          return;
        }
        done := done + printed;
        item := item.next;
        i := i + 1;
      }
      NothingLeft([], members, L(), depth);
    }

    /** The opening brace, one level further in. */
    method PrintOpen() returns (ok: bool)
      requires Valid()
      modifies this, buffer
      ensures Valid() && Moved()
      ensures var open := [OPEN_BRACE] + L().afterOpen;
              && (ok <==> old(offset) + |open| + 2 <= Capacity())
              && (ok ==> depth == old(depth) + 1 && offset == old(offset) + |open| && Text() == old(Text()) + open)
    {
      hide Text;
      var open := [OPEN_BRACE] + (if format then [NEWLINE] else []);
      ok := Emit(open, |open| + 1, false);
      if ok {
        depth := depth + 1;
      }
    }

    /** The closing brace behind its tabs, one level further out. */
    method PrintClose() returns (ok: bool)
      requires Valid() && depth > 0
      modifies this, buffer
      ensures Valid() && Moved() && offset == old(offset)
      ensures var close := Repeat(L().indent, old(depth) - 1) + [CLOSE_BRACE];
              && (ok <==> offset + |close| + 2 <= Capacity())
              && (ok ==> depth == old(depth) - 1 && Holds(offset, old(Text()) + close))
    {
      hide Text, Holds;
      RepeatLength(L().indent, depth - 1);
      ok := Put((if format then Repeat([TAB], depth - 1) else []) + [CLOSE_BRACE], if format then depth + 1 else 2);
      if ok {
        depth := depth - 1;
      }
    }

    /** print_object. */
    method PrintObject(item: Node) returns (ok: bool)
      requires Valid() && item.Valid() && PrintableMembers(Members(item.kids))
      modifies this, buffer
      ensures Valid() && Moved()
      ensures ok <==> old(offset) + |Render(Object(Members(item.kids)), L(), old(depth))| + 2 <= Capacity()
      ensures ok ==> depth == old(depth)
                     && Holds(old(offset), old(Text()) + Render(Object(Members(item.kids)), L(), old(depth)))
      decreases item.repr, 2
    {
      hide Node.Valid, Text, Holds, Render, RenderMembers, Repeat, Members, PrintableMembers, LayoutOf;
      ghost var before, inner := Text(), RenderMembers(Members(item.kids), L(), depth + 1);
      ghost var open, close := [OPEN_BRACE] + L().afterOpen, Repeat(L().indent, depth) + [CLOSE_BRACE];
      ObjectText(Members(item.kids), L(), depth, open, close);
      ok := PrintOpen();
      if !ok {
        return;
      }
      ok := PrintMembers(item);
      if !ok {
        return;
      }
      ok := PrintClose();
      if ok {
        HoldsFrom(old(offset), offset, before + open + inner + close);
        Grouped(before, open, inner, close);
      }
    }
  }

  lemma FirstChild(owner: Node)
    requires owner.Valid()
    ensures owner.child == (if owner.kids == [] then null else owner.kids[0])
    ensures |Trees(owner.kids)| == |Members(owner.kids)| == |owner.kids|
  {
    ValidParts(owner);
  }

  /** A child, as the walk along the list meets it. */
  lemma ChildAt(owner: Node, i: nat)
    requires owner.Valid() && i < |owner.kids|
    ensures
      var kid := owner.kids[i];
      && kid.Valid() && kid.repr < owner.repr
      && kid.next == (if i + 1 < |owner.kids| then owner.kids[i + 1] else null)
      && Trees(owner.kids)[i] == kid.tree && Members(owner.kids)[i] == Member(kid.name, kid.tree)
  {
    hide Node.Valid;
    ValidParts(owner);
    TreesAt(owner.kids, i);
  }

  // ---- entry points -------------------------------------------------------------

  /** The printed text and its NUL stand at the start of a block. */
  ghost predicate Printed(block: array<byte>, v: Json, format: bool)
    reads block
  {
    var text := Render(v, LayoutOf(format), 0);
    |text| < block.Length && block[..|text|] == text && block[|text|] == 0
  }

  /** cJSON_Print and cJSON_PrintUnformatted: a block of 256 bytes whose length the printer
      is not told, then cut to size. */
  method Print(item: Node?, format: bool) returns (ok: bool, block: array<byte>)
    requires item != null ==> item.Valid() && Printable(item.tree)
    ensures ok <==> item != null && |Render(item.tree, LayoutOf(format), 0)| + Slack(item.tree) <= INT_MAX
    ensures ok ==> fresh(block) && Printed(block, item.tree, format)
  {
    hide Node.Valid, Render, Printable;
    block := new byte[256];
    if item == null {
      return false, block;
    }
    var p := new Printer(block, 0, false, format);
    ok := p.PrintValue(item);
    if ok {
      ghost var text := Render(item.tree, LayoutOf(format), 0);
      RenderNoNul(item.tree, format, 0);
      assert [] + text == text;
      p.UpdateOffset([], text);
      block := Reallocate(p.buffer, p.length);
      assert block[..|text|] == text;
    }
  }

  /** cJSON_PrintBuffered: the caller guesses the size. */
  method PrintBuffered(item: Node?, prebuffer: int, format: bool) returns (ok: bool, block: array<byte>)
    requires item != null ==> item.Valid() && Printable(item.tree)
    requires prebuffer <= INT_MAX
    ensures ok <==> prebuffer >= 0 && item != null &&
                    |Render(item.tree, LayoutOf(format), 0)| + Slack(item.tree) <= INT_MAX
    ensures ok ==> fresh(block) && Printed(block, item.tree, format)
  {
    hide Node.Valid, Render, Printable;
    if prebuffer < 0 {
      block := new byte[0];
      return false, block;
    }
    block := new byte[prebuffer];
    if item == null {
      return false, block;
    }
    var p := new Printer(block, prebuffer, false, format);
    ok := p.PrintValue(item);
    if ok {
      ghost var text := Render(item.tree, LayoutOf(format), 0);
      assert [] + text == text;
      block := p.buffer;
    }
  }

  /** cJSON_PrintPreallocated: it succeeds exactly when the text, its NUL and one spare byte
      fit (a lone number needs no spare byte). */
  method PrintPreallocated(item: Node?, block: array<byte>, len: int, format: bool) returns (ok: bool)
    requires item != null ==> item.Valid() && Printable(item.tree)
    requires len <= block.Length && len <= INT_MAX
    modifies block
    ensures ok <==> item != null && |Render(item.tree, LayoutOf(format), 0)| + Slack(item.tree) <= len
    ensures ok ==> Printed(block, item.tree, format)
  {
    hide Node.Valid, Render, Printable;
    if len < 0 || item == null {
      return false;
    }
    var p := new Printer(block, len, true, format);
    ok := p.PrintValue(item);
    assert [] + Render(item.tree, LayoutOf(format), 0) == Render(item.tree, LayoutOf(format), 0);
  }

  lemma ElementStep(done: Text, items: seq<Json>, i: nat, L: Layout, d: nat)
    requires i < |items|
    ensures done + RenderItems(items[i..], L, d) ==
            done + ElementText(items[i], i + 1 < |items|, L, d) + RenderItems(items[i + 1..], L, d)
    ensures PrintableItems(items[i..]) <==> Printable(items[i]) && PrintableItems(items[i + 1..])
  {
    assert items[i..][1..] == items[i + 1..];
  }

  lemma MemberStep(done: Text, members: seq<Member>, i: nat, L: Layout, d: nat)
    requires i < |members|
    ensures done + RenderMembers(members[i..], L, d) ==
            done + MemberText(members[i], i + 1 < |members|, L, d) + RenderMembers(members[i + 1..], L, d)
    ensures PrintableMembers(members[i..]) <==>
            NulFree(members[i].key) && Printable(members[i].value) && PrintableMembers(members[i + 1..])
  {
    assert members[i..][1..] == members[i + 1..];
  }

  lemma NothingLeft(items: seq<Json>, members: seq<Member>, L: Layout, d: nat)
    ensures RenderItems(items[|items|..], L, d) == [] && RenderMembers(members[|members|..], L, d) == []
  {
  }

  lemma Grouped(a: Text, b: Text, c: Text, d: Text)
    ensures a + b + c + d == a + (b + c + d)
  {
  }

  lemma MemberParts(m: Member, L: Layout, d: nat)
    ensures RenderMember(m, L, d) ==
            (Repeat(L.indent, d) + Quote(m.key) + [COLON] + L.afterColon) + Render(m.value, L, d)
  {
  }

  lemma SeparatorParts(more: bool, format: bool)
    ensures Separator(more, []) + LayoutOf(format).afterMember ==
            (if more then [COMMA] else []) + if format then [NEWLINE] else []
  {
  }

  lemma ArrayText(items: seq<Json>, L: Layout, d: nat)
    ensures Render(Array(items), L, d) == [OPEN_BRACKET] + RenderItems(items, L, d + 1) + [CLOSE_BRACKET]
  {
  }

  lemma ObjectText(members: seq<Member>, L: Layout, d: nat, open: Text, close: Text)
    requires open == [OPEN_BRACE] + L.afterOpen && close == Repeat(L.indent, d) + [CLOSE_BRACE]
    ensures Render(Object(members), L, d) == open + RenderMembers(members, L, d + 1) + close
  {
  }

  lemma {:induction false} RepeatLength(s: Text, n: nat)
    ensures s == [] ==> Repeat(s, n) == []
    ensures |s| == 1 ==> |Repeat(s, n)| == n
  {
    if n > 0 {
      RepeatLength(s, n - 1);
    }
  }

  // ---- printed texts carry no NUL ----------------------------------------------

  lemma {:induction false} EscapeNoNul(s: Text)
    ensures NulFree(Escape(s))
  {
    if s != [] {
      EscapeNoNul(s[1..]);
    }
  }

  lemma QuoteNoNul(s: Text)
    ensures NulFree(Quote(s))
  {
    EscapeNoNul(s);
  }

  lemma DigitsNoNul(n: int)
    ensures NulFree(IntText(n))
  {
  }

  lemma {:induction false} IndentNoNul(format: bool, n: nat)
    ensures NulFree(Repeat(LayoutOf(format).indent, n))
  {
    if n > 0 {
      IndentNoNul(format, n - 1);
    }
  }

  lemma {:induction false} RenderNoNul(v: Json, format: bool, d: nat)
    ensures NulFree(Render(v, LayoutOf(format), d))
    decreases v, 0
  {
    match v
    case Number(n) => DigitsNoNul(n.Floor);
    case String(s) => EscapeNoNul(s);
    case Array(items) => ItemsNoNul(items, format, d + 1);
    case Object(members) => ObjectNoNul(members, format, d);
    case _ =>
  }

  lemma {:induction false} ObjectNoNul(members: seq<Member>, format: bool, d: nat)
    ensures NulFree(Render(Object(members), LayoutOf(format), d))
    decreases members, 3
  {
    hide Render, RenderMembers, Repeat;
    var open := [OPEN_BRACE] + LayoutOf(format).afterOpen;
    var close := Repeat(LayoutOf(format).indent, d) + [CLOSE_BRACE];
    MembersNoNul(members, format, d + 1);
    IndentNoNul(format, d);
    ObjectText(members, LayoutOf(format), d, open, close);
  }

  lemma {:induction false} ItemsNoNul(items: seq<Json>, format: bool, d: nat)
    ensures NulFree(RenderItems(items, LayoutOf(format), d))
    decreases items, 1
  {
    if items != [] {
      RenderNoNul(items[0], format, d);
      ItemsNoNul(items[1..], format, d);
    }
  }

  lemma {:induction false} MemberNoNul(m: Member, format: bool, d: nat)
    ensures NulFree(RenderMember(m, LayoutOf(format), d))
    decreases m, 1
  {
    IndentNoNul(format, d);
    EscapeNoNul(m.key);
    RenderNoNul(m.value, format, d);
  }

  lemma {:induction false} MembersNoNul(members: seq<Member>, format: bool, d: nat)
    ensures NulFree(RenderMembers(members, LayoutOf(format), d))
    decreases members, 2
  {
    if members != [] {
      MemberNoNul(members[0], format, d);
      MembersNoNul(members[1..], format, d);
    }
  }

  // ---- escaping ---------------------------------------------------------------

  lemma {:induction false} EscapeJoin(a: Text, b: Text)
    ensures Escape(a + b) == Escape(a) + Escape(b)
  {
    if a == [] {
      assert a + b == b;
    } else {
      assert (a + b)[1..] == a[1..] + b;
      EscapeJoin(a[1..], b);
    }
  }

  lemma EscapeUpTo(s: Text, i: nat)
    requires i < |s|
    ensures Escape(s[..i + 1]) == Escape(s[..i]) + EscapeByte(s[i])
    ensures |Escape(s[..i + 1])| <= |Escape(s)|
  {
    assert s[..i + 1] == s[..i] + [s[i]];
    EscapeJoin(s[..i], [s[i]]);
    assert Escape([s[i]]) == EscapeByte(s[i]) + Escape([]);
    assert s == s[..i + 1] + s[i + 1..];
    EscapeJoin(s[..i + 1], s[i + 1..]);
  }

  lemma {:induction false} EscapePlain(s: Text)
    requires |Escape(s)| == |s|
    ensures Escape(s) == s
  {
    if s != [] {
      EscapeGrows(s[1..]);
      EscapePlain(s[1..]);
    }
  }

  lemma {:induction false} EscapeGrows(s: Text)
    ensures |s| <= |Escape(s)|
  {
    if s != [] {
      EscapeGrows(s[1..]);
    }
  }

  /** The bytes escaping adds to a string. */
  method CountEscapes(s: Text) returns (n: nat)
    ensures |s| + n == |Escape(s)|
  {
    n := 0;
    var i := 0;
    while i < |s|
      invariant 0 <= i <= |s|
      invariant i + n == |Escape(s[..i])|
    {
      EscapeUpTo(s, i);
      if s[i] == QUOTE || s[i] == BACKSLASH || s[i] == 8 || s[i] == 12 || s[i] == 10 || s[i] == 13 || s[i] == 9 {
        n := n + 1;
      } else if s[i] < 32 {
        n := n + 5;
      }
      i := i + 1;
    }
    assert s[..|s|] == s;
  }

  /** The letter of a one-letter escape sequence, if the byte has one. */
  function EscapeLetter(b: byte): (r: nat)
    ensures r < 256 && (r > 0 <==> (b == BACKSLASH || b == QUOTE || b == 8 || b == 12 || b == 10 || b == 13 || b == 9))
    ensures r > 0 ==> EscapeByte(b) == [BACKSLASH, r]
  {
    match b
    case 92 => BACKSLASH
    case 34 => QUOTE
    case 8 => 98
    case 12 => 102
    case 10 => 110
    case 13 => 114
    case 9 => 116
    case _ => 0
  }

  /** One byte or its escape sequence; the code point form also leaves a NUL behind it. */
  method StoreEscape(block: array<byte>, at: nat, b: byte) returns (next: nat)
    requires at + |EscapeByte(b)| < block.Length
    modifies block
    ensures next == at + |EscapeByte(b)|
    ensures block[at..next] == EscapeByte(b)
    ensures forall k {:trigger block[k]} :: 0 <= k < at ==> block[k] == old(block[k])
  {
    if b > 31 && b != QUOTE && b != BACKSLASH {
      block[at] := b;
      return at + 1;
    }
    block[at] := BACKSLASH;
    if EscapeLetter(b) > 0 {
      block[at + 1] := EscapeLetter(b);
      next := at + 2;
    } else {
      next := StoreCode(block, at, b);
    }
  }

  /** The code point form behind its backslash. */
  method StoreCode(block: array<byte>, at: nat, b: byte) returns (next: nat)
    requires at + 6 < block.Length && block[at] == BACKSLASH
    modifies block
    ensures next == at + 6 && block[at..next] == [BACKSLASH, 117, 48, 48, HexDigit(b / 16), HexDigit(b % 16)]
    ensures forall k {:trigger block[k]} :: 0 <= k < at ==> block[k] == old(block[k])
  {
    hide HexDigit;
    var digits := [117, 48, 48, HexDigit(b / 16), HexDigit(b % 16)];
    Strcpy(block, at + 1, digits);
    next := at + 6;
    assert block[at..next] == [BACKSLASH] + digits;
  }

  /** One byte more of the escaped string. */
  method StoreNext(block: array<byte>, at: nat, from: nat, s: Text, i: nat) returns (next: nat)
    requires i < |s| && from == at + |Escape(s[..i])| && at + |Escape(s)| + 1 < block.Length
    requires from <= block.Length && block[at..from] == Escape(s[..i])
    modifies block
    ensures next == at + |Escape(s[..i + 1])| <= at + |Escape(s)| && block[at..next] == Escape(s[..i + 1])
    ensures forall k {:trigger block[k]} :: 0 <= k < at ==> block[k] == old(block[k])
  {
    hide Escape, EscapeByte;
    EscapeUpTo(s, i);
    ghost var done := block[at..from];
    next := StoreEscape(block, from, s[i]);
    assert block[at..from] == done;
    assert block[at..next] == block[at..from] + block[from..next];
  }

  /** The escaped string, with room for a quote and a NUL behind it. */
  method StoreEscaped(block: array<byte>, at: nat, s: Text)
    requires at + |Escape(s)| + 1 < block.Length
    modifies block
    ensures block[at..at + |Escape(s)|] == Escape(s)
    ensures forall k {:trigger block[k]} :: 0 <= k < at ==> block[k] == old(block[k])
  {
    hide Escape;
    var i, op: nat := 0, at;
    assert s[..0] == [];
    EscapeNothing();
    while i < |s|
      invariant 0 <= i <= |s| && op == at + |Escape(s[..i])| <= at + |Escape(s)|
      invariant block[at..op] == Escape(s[..i])
      invariant forall k {:trigger block[k]} :: 0 <= k < at ==> block[k] == old(block[k])
    {
      op := StoreNext(block, at, op, s, i);
      i := i + 1;
    }
    assert s[..|s|] == s;
  }

  lemma EscapeNothing()
    ensures Escape([]) == []
  {
  }

  lemma QuoteLength(s: Text)
    ensures |Quote(s)| == |Escape(s)| + 2
  {
  }

  /** The quoted string behind what the block holds up to `at`. */
  method StoreBehind(block: array<byte>, at: nat, s: Text, escapes: nat)
    requires |s| + escapes == |Escape(s)| && at + |Quote(s)| < block.Length
    modifies block
    ensures block[..at + |Quote(s)|] == old(block[..at]) + Quote(s) && block[at + |Quote(s)|] == 0
  {
    hide Escape, Quote;
    ghost var before := block[..at];
    StoreQuoted(block, at, s, escapes);
    assert block[..at] == before;
    assert block[..at + |Quote(s)|] == block[..at] + block[at..at + |Quote(s)|];
  }

  /** The quoted string and its NUL: a straight copy when nothing has to be escaped. */
  method StoreQuoted(block: array<byte>, at: nat, s: Text, escapes: nat)
    requires |s| + escapes == |Escape(s)| && at + |Quote(s)| < block.Length
    modifies block
    ensures block[at..at + |Quote(s)|] == Quote(s) && block[at + |Quote(s)|] == 0
    ensures forall k {:trigger block[k]} :: 0 <= k < at ==> block[k] == old(block[k])
  {
    hide Escape;
    var length := |s| + escapes;
    if escapes == 0 {
      EscapePlain(s);
      Strcpy(block, at, [QUOTE] + s + [QUOTE]);
    } else {
      block[at] := QUOTE;
      StoreEscaped(block, at + 1, s);
      ghost var body := block[at + 1..at + 1 + length];
      block[at + length + 1] := QUOTE;
      block[at + length + 2] := 0;
      assert block[at + 1..at + 1 + length] == body;
      assert block[at..at + length + 2] == [block[at]] + block[at + 1..at + 1 + length] + [block[at + length + 1]];
    }
  }
}
