/** What cJSON_Minify leaves out and what it keeps, piece by piece. */
module MinifyPieces {
  import opened Bytes
  import opened JsonGrammar
  import opened JsonTree
  import opened Minify
  import opened Wrappers

  /** A piece of a text: a blank, a comment, a string literal as bytes and escaped pairs, or any
      other byte. The bodies of comments exclude the first slash and the two bytes that end a
      block comment: the star that opens it can be the one that closes it. */
  datatype Piece =
    | Blank(b: byte)
    | LineRemark(body: Text)
    | BlockRemark(body: Text)
    | Literal(units: seq<Text>)
    | Other(b: byte)

  function Join(units: seq<Text>): Text {
    if units == [] then [] else units[0] + Join(units[1..])
  }

  function WritePiece(p: Piece): Text {
    match p
    case Blank(b) => [b]
    case LineRemark(body) => [47, 47] + body
    case BlockRemark(body) => [47] + body + [42, 47]
    case Literal(units) => [34] + Join(units) + [34]
    case Other(b) => [b]
  }

  function Write(pieces: seq<Piece>): Text {
    if pieces == [] then [] else WritePiece(pieces[0]) + Write(pieces[1..])
  }

  /** Strings and other bytes, without what lies between them. */
  function WriteKept(pieces: seq<Piece>): Text {
    if pieces == [] then []
    else if pieces[0].Literal? || pieces[0].Other? then WritePiece(pieces[0]) + WriteKept(pieces[1..])
    else WriteKept(pieces[1..])
  }

  predicate ProperUnit(u: Text) {
    (|u| == 1 && u[0] != 0 && u[0] != 34 && u[0] != 92) || (|u| == 2 && u[0] == 92 && u[1] != 0)
  }

  /** The piece can stand in front of the text `next`. */
  predicate ProperPiece(p: Piece, next: Text) {
    match p
    case Blank(b) => b == 32 || b == 9 || b == 13 || b == 10
    case LineRemark(body) =>
      (forall i :: 0 <= i < |body| ==> body[i] != 0 && body[i] != 10) && (next == [] || next[0] == 10)
    case BlockRemark(body) =>
      && (body == [] || body[0] == 42)
      && forall i :: 0 <= i < |body| ==> body[i] != 0 && !(body[i] == 42 && i + 1 < |body| && body[i + 1] == 47)
    case Literal(units) => forall i :: 0 <= i < |units| ==> ProperUnit(units[i])
    case Other(b) =>
      && b != 0 && b != 34 && b != 32 && b != 9 && b != 13 && b != 10
      && (b == 47 ==> next == [] || (next[0] != 47 && next[0] != 42))
  }

  predicate ProperPieces(pieces: seq<Piece>) {
    pieces == [] || (ProperPiece(pieces[0], Write(pieces[1..])) && ProperPieces(pieces[1..]))
  }

  // ---- where a piece ends -----------------------------------------------------------------------

  lemma {:induction false} LineEndsAt(body: Text, rest: Text)
    requires forall i :: 0 <= i < |body| ==> body[i] != 0 && body[i] != 10
    requires rest != [] && (rest[0] == 0 || rest[0] == 10)
    ensures LineEnd(body + rest) == |body|
  {
    if body == [] {
      assert body + rest == rest;
    } else {
      assert (body + rest)[1..] == body[1..] + rest;
      LineEndsAt(body[1..], rest);
    }
  }

  lemma {:induction false} BlockEndsAt(body: Text, rest: Text)
    requires forall i :: 0 <= i < |body| ==>
               body[i] != 0 && !(body[i] == 42 && i + 1 < |body| && body[i + 1] == 47)
    requires |rest| > 1 && rest[0] == 42 && rest[1] == 47
    ensures BlockEnd(body + rest) == Some(|body|)
  {
    if body == [] {
      assert body + rest == rest;
    } else {
      assert (body + rest)[1..] == body[1..] + rest;
      BlockEndsAt(body[1..], rest);
    }
  }

  lemma {:induction false} QuoteClosesAt(units: seq<Text>, rest: Text)
    requires forall i :: 0 <= i < |units| ==> ProperUnit(units[i])
    requires rest != [] && rest[0] == 34
    ensures ClosingQuote(Join(units) + rest) == Some(|Join(units)|)
  {
    if units == [] {
      assert [] + rest == rest;
    } else {
      var u, more := units[0], Join(units[1..]) + rest;
      assert Join(units) + rest == u + more;
      assert (u + more)[|u|..] == more;
      QuoteClosesAt(units[1..], rest);
    }
  }

  // ---- what is left out and what is kept ----------------------------------------------------------

  /** The piece in front of what follows, as the pass sees it. */
  predicate Passed(p: Piece, s: Text, rest: Text) {
    && (Closed(s) <==> Closed(rest))
    && (Closed(rest) ==>
          MinifyText(s) == (if p.Literal? || p.Other? then WritePiece(p) + MinifyText(rest) else MinifyText(rest)))
  }

  lemma RemarkPassed(body: Text, rest: Text)
    requires forall i :: 0 <= i < |body| ==> body[i] != 0 && body[i] != 10
    requires rest != [] && (rest[0] == 0 || rest[0] == 10)
    ensures Passed(LineRemark(body), [47, 47] + body + rest, rest)
  {
    hide Closed, MinifyText, LineEnd;
    var s := [47, 47] + body + rest;
    LineEndsAt([47, 47] + body, rest);
    LineUnfold(s);
    assert s[|body| + 2..] == rest;
  }

  lemma BlockPassed(body: Text, rest: Text)
    requires ProperPiece(BlockRemark(body), [])
    ensures Passed(BlockRemark(body), [47] + body + [42, 47] + rest, rest)
  {
    hide Closed, MinifyText, BlockEnd;
    var s := [47] + body + [42, 47] + rest;
    assert s == ([47] + body) + ([42, 47] + rest);
    BlockEndsAt([47] + body, [42, 47] + rest);
    BlockUnfold(s);
    assert s[|body| + 3..] == rest;
  }

  lemma LiteralPassed(units: seq<Text>, rest: Text)
    requires forall i :: 0 <= i < |units| ==> ProperUnit(units[i])
    ensures Passed(Literal(units), [34] + Join(units) + [34] + rest, rest)
  {
    hide Closed, MinifyText, ClosingQuote, Join;
    var s := [34] + Join(units) + [34] + rest;
    assert s[1..] == Join(units) + ([34] + rest);
    QuoteClosesAt(units, [34] + rest);
    StringUnfold(s);
    var n := |Join(units)| + 2;
    assert s[n..] == rest && s[..n] == WritePiece(Literal(units));
  }

  lemma BytePassed(p: Piece, next: Text)
    requires (p.Blank? || p.Other?) && ProperPiece(p, next)
    ensures Passed(p, [p.b] + (next + [0]), next + [0])
  {
    hide Closed, MinifyText;
    var s := [p.b] + (next + [0]);
    assert s[1..] == next + [0] && s[..1] == [p.b];
    if p.Blank? {
      BlankUnfold(s);
    } else {
      assert next != [] ==> s[1] == next[0];
      ByteUnfold(s);
    }
  }

  /** One piece in front of a text without NUL. */
  lemma PieceMinified(p: Piece, next: Text)
    requires ProperPiece(p, next)
    ensures Passed(p, WritePiece(p) + (next + [0]), next + [0])
  {
    hide Passed, Join, ProperUnit;
    var rest := next + [0];
    assert next != [] ==> rest[0] == next[0];
    match p
    case LineRemark(body) => RemarkPassed(body, rest);
    case BlockRemark(body) => BlockPassed(body, rest);
    case Literal(units) => LiteralPassed(units, rest);
    case _ => BytePassed(p, next);
  }

  /** Blanks and comments go; strings and all other bytes stay, in order. */
  lemma {:induction false} PiecesMinified(pieces: seq<Piece>)
    requires ProperPieces(pieces)
    ensures Closed(Write(pieces) + [0]) && MinifyText(Write(pieces) + [0]) == WriteKept(pieces) + [0]
  {
    hide MinifyText, ProperPiece;
    if pieces == [] {
      NothingMinified();
    } else {
      var p, next := pieces[0], Write(pieces[1..]);
      PiecesMinified(pieces[1..]);
      PieceMinified(p, next);
      assert Write(pieces) + [0] == WritePiece(p) + (next + [0]);
      assert WritePiece(p) + (WriteKept(pieces[1..]) + [0]) == WritePiece(p) + WriteKept(pieces[1..]) + [0];
    }
  }

  lemma NothingMinified()
    ensures Write([]) + [0] == [0] == WriteKept([]) + [0] && Closed([0]) && MinifyText([0]) == [0]
  {
  }

  // ---- every closed text is made of pieces ----------------------------------------------------------

  lemma {:induction false} UnitsBefore(s: Text, n: nat) returns (units: seq<Text>)
    requires NulFree(s) && ClosingQuote(s + [0]) == Some(n)
    ensures n < |s| && Join(units) == s[..n] && forall i :: 0 <= i < |units| ==> ProperUnit(units[i])
    decreases |s|
  {
    var k := if s != [] && s[0] == 92 then 2 else 1;
    if |s| < k {
    }
    if s[0] == 34 {
      units := [];
    } else {
      assert (s + [0])[k..] == s[k..] + [0];
      units := UnitsBefore(s[k..], n - k);
      assert Join([s[..k]] + units) == s[..k] + s[k..][..n - k] by {
        assert ([s[..k]] + units)[1..] == units;
      }
      assert s[..k] + s[k..][..n - k] == s[..n];
      units := [s[..k]] + units;
    }
  }

  lemma {:induction false} LineBody(s: Text, n: nat)
    requires NulFree(s) && n == LineEnd(s + [0])
    ensures n <= |s| && (forall i :: 0 <= i < n ==> s[i] != 0 && s[i] != 10) && (n < |s| ==> s[n] == 10)
  {
    if s == [] || s[0] == 10 {
    } else {
      assert (s + [0])[1..] == s[1..] + [0];
      LineBody(s[1..], n - 1);
      assert forall i :: 0 < i < n ==> s[i] == s[1..][i - 1];
      assert n < |s| ==> s[n] == s[1..][n - 1];
    }
  }

  lemma {:induction false} BlockBody(s: Text, n: nat)
    requires NulFree(s) && BlockEnd(s + [0]) == Some(n)
    ensures n + 2 <= |s| && s[n] == 42 && s[n + 1] == 47
    ensures forall i :: 0 <= i < n ==> s[i] != 0 && !(s[i] == 42 && s[i + 1] == 47)
  {
    if n > 0 {
      assert (s + [0])[1..] == s[1..] + [0];
      BlockBody(s[1..], n - 1);
      assert forall i :: 0 < i < n + 2 ==> s[i] == s[1..][i - 1];
    }
  }

  /** The first piece of a closed text. */
  lemma FirstPiece(t: Text) returns (p: Piece, n: nat)
    requires t != [] && NulFree(t) && Closed(t + [0])
    ensures 0 < n <= |t| && WritePiece(p) == t[..n] && ProperPiece(p, t[n..]) && Closed(t[n..] + [0])
  {
    hide Closed, LineEnd, BlockEnd, ClosingQuote, Join, MinifyText;
    var s := t + [0];
    assert s[1..] == t[1..] + [0];
    if Dropped(t[0]) {
      p, n := Blank(t[0]), 1;
      BlankUnfold(s);
    } else if LineComment(s) {
      LineBody(t, LineEnd(s));
      n := LineEnd(s);
      LineUnfold(s);
      StartsAfter(t, n);
      p := LineRemark(t[2..n]);
      assert [47, 47] + t[2..n] == t[..n];
    } else if BlockComment(s) {
      BlockUnfold(s);
      var k := BlockEnd(s).value;
      BlockBody(t, k);
      n := k + 2;
      BlockStarts(s);
      p := BlockRemark(t[1..k]);
      assert [47] + t[1..k] + [42, 47] == t[..n];
    } else if t[0] == 34 {
      StringUnfold(s);
      var k := ClosingQuote(s[1..]).value;
      var units := UnitsBefore(t[1..], k);
      n := k + 2;
      p := Literal(units);
      assert [34] + t[1..][..k] + [34] == t[..n];
    } else {
      p, n := Other(t[0]), 1;
      ByteUnfold(s);
    }
    assert s[n..] == t[n..] + [0];
  }

  lemma StartsAfter(t: Text, n: nat)
    requires n == LineEnd(t + [0]) && LineComment(t + [0]) && NulFree(t)
    ensures n >= 2 && |t| >= 2
  {
    assert (t + [0])[1..][0] == 47;
    assert LineEnd((t + [0])[1..]) > 0;
  }

  lemma BlockStarts(s: Text)
    requires BlockComment(s) && BlockEnd(s).Some?
    ensures BlockEnd(s).value > 0
  {
  }

  /** Every text that the pass does not run out of has pieces, so the rule above says what becomes of it. */
  lemma {:induction false} TextHasPieces(t: Text) returns (pieces: seq<Piece>)
    requires NulFree(t) && Closed(t + [0])
    ensures ProperPieces(pieces) && Write(pieces) == t
    decreases |t|
  {
    hide Closed, ProperPiece;
    if t == [] {
      pieces := [];
    } else {
      var p, n := FirstPiece(t);
      var more := TextHasPieces(t[n..]);
      pieces := [p] + more;
      assert pieces[1..] == more;
      assert t[..n] + t[n..] == t;
    }
  }
}
