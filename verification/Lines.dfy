/** Texts as sequences of lines, and what it takes to read them backwards. */
module Lines {
  import opened Bytes

  predicate IsLine(l: Text) {
    forall i :: 0 <= i < |l| ==> l[i] != NEWLINE
  }

  predicate AreLines(ls: seq<Text>) {
    forall i :: 0 <= i < |ls| ==> IsLine(ls[i])
  }

  /** The lines, each with a newline behind it. */
  function Join(ls: seq<Text>): Text {
    if ls == [] then [] else Join(ls[..|ls| - 1]) + ls[|ls| - 1] + [NEWLINE]
  }

  lemma JoinSnoc(ls: seq<Text>, l: Text)
    ensures Join(ls + [l]) == Join(ls) + l + [NEWLINE]
  {
    assert (ls + [l])[..|ls|] == ls;
  }

  lemma {:induction false} JoinAppend(a: seq<Text>, b: seq<Text>)
    ensures Join(a + b) == Join(a) + Join(b)
  {
    if b == [] {
      assert a + b == a;
    } else {
      var b' := b[..|b| - 1];
      assert a + b == (a + b') + [b[|b| - 1]];
      JoinAppend(a, b');
      JoinSnoc(a + b', b[|b| - 1]);
    }
  }

  lemma JoinCons(l: Text, ls: seq<Text>)
    ensures Join([l] + ls) == l + [NEWLINE] + Join(ls)
  {
    JoinAppend([l], ls);
  }

  /** The lines of a text that ends with a newline. */
  function LinesOf(text: Text): (ls: seq<Text>)
    ensures AreLines(ls)
    ensures text != [] ==> ls != []
    decreases |text|
  {
    if text == [] then []
    else
      var n := LineLength(text);
      [text[..n]] + LinesOf(if n < |text| then text[n + 1..] else [])
  }

  function LineLength(text: Text): (n: nat)
    ensures n <= |text| && IsLine(text[..n]) && (n < |text| ==> text[n] == NEWLINE)
  {
    if text == [] || text[0] == NEWLINE then 0 else 1 + LineLength(text[1..])
  }

  predicate Ended(text: Text) {
    text == [] || text[|text| - 1] == NEWLINE
  }

  lemma {:induction false} JoinLinesOf(text: Text)
    requires Ended(text)
    ensures Join(LinesOf(text)) == text
    decreases |text|
  {
    hide Join, LinesOf;
    if text == [] {
      JoinNothing();
      LinesOfNothing();
    } else {
      var first, rest := SplitFirst(text);
      LinesOfCons(first, rest);
      JoinLinesOf(rest);
      JoinCons(first, LinesOf(rest));
    }
  }

  lemma JoinNothing()
    ensures Join([]) == []
  {
  }

  lemma {:induction false} LineLengthAt(l: Text, rest: Text)
    requires IsLine(l)
    ensures LineLength(l + [NEWLINE] + rest) == |l|
  {
    if l != [] {
      assert (l + [NEWLINE] + rest)[1..] == l[1..] + [NEWLINE] + rest;
      LineLengthAt(l[1..], rest);
    }
  }

  lemma LinesOfCons(l: Text, rest: Text)
    requires IsLine(l)
    ensures LinesOf(l + [NEWLINE] + rest) == [l] + LinesOf(rest)
  {
    LineLengthAt(l, rest);
    var text := l + [NEWLINE] + rest;
    assert text[..|l|] == l && text[|l| + 1..] == rest;
  }

  lemma {:induction false} LinesOfAppend(a: Text, b: Text)
    requires Ended(a)
    ensures LinesOf(a + b) == LinesOf(a) + LinesOf(b)
    decreases |a|
  {
    hide LinesOf;
    if a == [] {
      assert a + b == b;
      LinesOfNothing();
    } else {
      var n := LineLength(a);
      var l, rest := a[..n], a[n + 1..];
      assert a == l + [NEWLINE] + rest;
      assert a + b == l + [NEWLINE] + (rest + b);
      LinesOfCons(l, rest);
      LinesOfCons(l, rest + b);
      LinesOfAppend(rest, b);
    }
  }

  lemma LinesOfNothing()
    ensures LinesOf([]) == []
  {
  }

  lemma {:induction false} LinesOfJoin(ls: seq<Text>)
    requires AreLines(ls)
    ensures LinesOf(Join(ls)) == ls
  {
    hide LinesOf, Join;
    if ls == [] {
      JoinNothing();
      LinesOfNothing();
    } else {
      assert ls == [ls[0]] + ls[1..];
      JoinCons(ls[0], ls[1..]);
      LinesOfCons(ls[0], Join(ls[1..]));
      LinesOfJoin(ls[1..]);
    }
  }

  lemma JoinEnded(ls: seq<Text>)
    ensures Ended(Join(ls)) && (ls != [] ==> Join(ls) != [])
  {
  }

  /** The part of a text up to its last newline, and what is left behind it. */
  lemma {:induction false} SplitLast(text: Text) returns (front: Text, last: Text)
    ensures text == front + last && Ended(front) && IsLine(last)
  {
    if Ended(text) {
      front, last := text, [];
    } else {
      var n := |text| - 1;
      front, last := SplitLast(text[..n]);
      last := last + [text[n]];
    }
  }

  /** The first line of a text that ends with a newline, and the text behind it. */
  lemma SplitFirst(text: Text) returns (first: Text, rest: Text)
    requires text != [] && Ended(text)
    ensures text == first + [NEWLINE] + rest && IsLine(first) && Ended(rest)
  {
    var n := LineLength(text);
    first, rest := text[..n], text[n + 1..];
  }

  lemma LinesOfOne(l: Text)
    requires IsLine(l)
    ensures LinesOf(l + [NEWLINE]) == [l]
  {
    hide LinesOf;
    LinesOfCons(l, []);
    LinesOfNothing();
    assert l + [NEWLINE] + [] == l + [NEWLINE] && [l] + [] == [l];
  }

  /** A text that does not end with two newlines has bytes in its last line. */
  lemma LastLineNotEmpty(text: Text)
    requires Ended(text) && |text| >= 2 && text[|text| - 2] != NEWLINE
    ensures LinesOf(text) != [] && LinesOf(text)[|LinesOf(text)| - 1] != []
  {
    hide LinesOf;
    JoinLinesOf(text);
    JoinEnded(LinesOf(text)[..|LinesOf(text)| - 1]);
  }

  /** Where line q starts. */
  function Start(ls: seq<Text>, q: nat): (n: nat)
    requires q <= |ls|
  {
    |Join(ls[..q])|
  }

  lemma StartNext(ls: seq<Text>, q: nat)
    requires q < |ls|
    ensures Start(ls, q + 1) == Start(ls, q) + |ls[q]| + 1
  {
    assert ls[..q + 1] == ls[..q] + [ls[q]];
    JoinSnoc(ls[..q], ls[q]);
  }

  lemma StartEnd(ls: seq<Text>)
    ensures Start(ls, |ls|) == |Join(ls)|
  {
    assert ls[..|ls|] == ls;
  }

  lemma SplitAt(ls: seq<Text>, q: nat)
    requires q <= |ls|
    ensures Join(ls) == Join(ls[..q]) + Join(ls[q..])
  {
    assert ls == ls[..q] + ls[q..];
    JoinAppend(ls[..q], ls[q..]);
  }

  /** The byte before the k-th one of line q: of that line, or the newline of the line before. */
  lemma ByteBefore(ls: seq<Text>, q: nat, k: nat)
    requires q < |ls| && k <= |ls[q]|
    ensures Start(ls, q) + k < |Join(ls)|
    ensures k > 0 ==> Join(ls)[Start(ls, q) + k - 1] == ls[q][k - 1]
    ensures k == 0 && q > 0 ==>
            Start(ls, q) == Start(ls, q - 1) + |ls[q - 1]| + 1 && Join(ls)[Start(ls, q) - 1] == NEWLINE
  {
    hide Join;
    SplitAt(ls, q);
    JoinCons(ls[q], ls[q + 1..]);
    assert ls[q..] == [ls[q]] + ls[q + 1..];
    if q > 0 {
      StartNext(ls, q - 1);
      assert ls[..q] == ls[..q - 1] + [ls[q - 1]];
      JoinSnoc(ls[..q - 1], ls[q - 1]);
    }
  }

  // ---- reversing ---------------------------------------------------------------------------

  function Rev<T>(s: seq<T>): (r: seq<T>)
    ensures |r| == |s|
  {
    if s == [] then [] else Rev(s[1..]) + [s[0]]
  }

  lemma {:induction false} RevAt<T>(s: seq<T>, k: nat)
    requires k < |s|
    ensures Rev(s)[k] == s[|s| - 1 - k]
  {
    if k < |s| - 1 {
      RevAt(s[1..], k);
    }
  }

  lemma {:induction false} RevAppend<T>(a: seq<T>, b: seq<T>)
    ensures Rev(a + b) == Rev(b) + Rev(a)
  {
    if a == [] {
      assert a + b == b;
    } else {
      assert (a + b)[1..] == a[1..] + b;
      RevAppend(a[1..], b);
    }
  }

  lemma {:induction false} RevRev<T>(s: seq<T>)
    ensures Rev(Rev(s)) == s
  {
    if s != [] {
      RevRev(s[1..]);
      RevAppend(Rev(s[1..]), [s[0]]);
      assert Rev([s[0]]) == [s[0]];
    }
  }

  /** Reversing a line by swapping from both ends. */
  method ReverseInPlace(s: Text) returns (line: Text)
    ensures line == Rev(s)
  {
    line := s;
    var i := 0;
    while i < |s| / 2
      invariant i <= |s| / 2 && |line| == |s|
      invariant forall k {:trigger line[k]} :: 0 <= k < |s| ==>
                  line[k] == if k < i || k >= |s| - i then s[|s| - 1 - k] else s[k]
    {
      var swap := line[i];
      line := line[i := line[|s| - i - 1]];
      line := line[|s| - i - 1 := swap];
      i := i + 1;
    }
    forall k | 0 <= k < |s|
      ensures line[k] == Rev(s)[k]
    {
      RevAt(s, k);
    }
  }
}
