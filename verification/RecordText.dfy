/** The record as a text: where its lines are when names may hold newlines, and which of them are
    headers. */
module RecordText {
  import opened Bytes
  import opened Decimal
  import opened Lines
  import opened CommitRecord

  // ---- headers in a text -------------------------------------------------------------------------

  predicate NoHeaderIn(ls: seq<Text>) {
    forall i :: 0 <= i < |ls| ==> !IsHeader(ls[i])
  }

  /** No line of the text is a header. */
  predicate Quiet(text: Text) {
    NoHeaderIn(LinesOf(text))
  }

  /** No line of any name is a header. */
  predicate HeaderFree(s: Snapshot) {
    forall i :: 0 <= i < |s| ==> Quiet(s[i].name + [NEWLINE])
  }

  /** The last header, or -1. */
  function LastHeader(ls: seq<Text>): (h: int)
    ensures -1 <= h < |ls|
    ensures h >= 0 ==> IsHeader(ls[h])
    ensures forall i :: h < i < |ls| ==> !IsHeader(ls[i])
  {
    if ls == [] then -1
    else if IsHeader(ls[|ls| - 1]) then |ls| - 1
    else LastHeader(ls[..|ls| - 1])
  }

  lemma HeaderBytes(line: Text)
    ensures IsHeader(line) <==> |line| >= 8 && forall k :: 0 <= k < 8 ==> line[k] == Header()[k]
  {
    if |line| >= 8 {
      assert forall k :: 0 <= k < 8 ==> line[..8][k] == line[k];
    }
  }

  /** What the program writes behind a name: a digest, an arrow, or nothing but "(MD5)" glued to
      it by the scanner. */
  predicate Behind(rest: Text) {
    rest == [] || rest[0] == 40 || (rest[0] == SPACE && (|rest| > 2 ==> rest[1] != 99 || rest[2] != 111))
  }

  /** A line is a header, or not, whatever the program writes behind it. */
  lemma HeaderDecided(l: Text, rest: Text)
    requires Behind(rest)
    ensures IsHeader(l + rest) <==> IsHeader(l)
  {
    hide IsHeader;
    HeaderBytes(l);
    HeaderBytes(l + rest);
    var line := l + rest;
    if |line| >= 8 && |l| < 8 {
      assert line[|l|] == rest[0];
      assert |l| == 1 ==> line[2] == rest[1] && line[3] == rest[2];
    } else if |line| >= 8 {
      assert forall k :: 0 <= k < 8 ==> line[k] == l[k];
    }
  }

  lemma NotHash(line: Text)
    requires line == [] || line[0] != 35
    ensures !IsHeader(line)
  {
    HeaderBytes(line);
    assert Header()[0] == 35;
  }

  lemma {:induction false} QuietAppend(a: Text, b: Text)
    requires Ended(a)
    ensures Quiet(a + b) <==> Quiet(a) && Quiet(b)
  {
    hide LinesOf, IsHeader;
    LinesOfAppend(a, b);
    var la, lb := LinesOf(a), LinesOf(b);
    assert forall i :: 0 <= i < |lb| ==> lb[i] == (la + lb)[|la| + i];
    assert forall i :: 0 <= i < |la| ==> la[i] == (la + lb)[i];
  }

  lemma QuietLine(l: Text)
    requires IsLine(l)
    ensures Quiet(l + [NEWLINE]) <==> !IsHeader(l)
  {
    hide LinesOf, IsHeader;
    LinesOfOne(l);
    assert [l][0] == l;
  }

  lemma QuietNothing()
    ensures Quiet([])
  {
  }

  lemma {:induction false} QuietJoin(ls: seq<Text>)
    ensures Quiet(Join(ls)) <==> forall i :: 0 <= i < |ls| ==> Quiet(ls[i] + [NEWLINE])
  {
    hide Quiet;
    if ls == [] {
      QuietNothing();
    } else {
      var init, l := ls[..|ls| - 1], ls[|ls| - 1];
      QuietJoin(init);
      JoinEnded(init);
      QuietAppend(Join(init), l + [NEWLINE]);
      assert Join(ls) == Join(init) + (l + [NEWLINE]);
      assert forall i :: 0 <= i < |init| ==> init[i] == ls[i];
    }
  }

  /** What is written behind a name turns none of its lines into a header, nor back. */
  lemma QuietBehind(name: Text, rest: Text)
    requires IsLine(rest) && Behind(rest)
    ensures Quiet(name + rest + [NEWLINE]) <==> Quiet(name + [NEWLINE])
  {
    hide Quiet, IsHeader, Behind;
    var a, l := SplitLast(name);
    HeaderDecided(l, rest);
    QuietLine(l);
    QuietLine(l + rest);
    QuietAppend(a, l + [NEWLINE]);
    QuietAppend(a, l + rest + [NEWLINE]);
    assert name + [NEWLINE] == a + (l + [NEWLINE]);
    assert name + rest + [NEWLINE] == a + (l + rest + [NEWLINE]);
  }

  /** Of the line that joins two names only the source's part can be a header. */
  lemma QuietCopy(source: Text, name: Text)
    requires Quiet(source + [NEWLINE]) && Quiet(name + [NEWLINE])
    ensures Quiet(source + Arrow() + name + [NEWLINE])
  {
    hide Quiet, IsHeader;
    var a, l := SplitLast(source);
    var first, rest := SplitFirst(name + [NEWLINE]);
    var line := l + (Arrow() + first);
    HeaderDecided(l, Arrow() + first);
    QuietLine(l);
    QuietLine(line);
    QuietAppend(a, l + [NEWLINE]);
    assert source + [NEWLINE] == a + (l + [NEWLINE]);
    QuietAppend(first + [NEWLINE], rest);
    QuietAppend(line + [NEWLINE], rest);
    QuietAppend(a, line + [NEWLINE] + rest);
    assert source + Arrow() + name + [NEWLINE] == a + (l + Arrow() + (name + [NEWLINE]));
    assert a + (l + Arrow() + (first + [NEWLINE] + rest)) == a + (line + [NEWLINE] + rest);
  }

  lemma QuietSum(e: Entry)
    requires Hex(e.sum)
    ensures Quiet(SumLine(e) + [NEWLINE]) <==> Quiet(e.name + [NEWLINE])
  {
    hide Quiet;
    QuietBehind(e.name, [SPACE] + e.sum);
    assert SumLine(e) == e.name + ([SPACE] + e.sum);
  }

  /** The names can be read off the digests: their lines hold a header exactly when a name does. */
  lemma QuietSums(s: Snapshot)
    requires Named(s)
    ensures Quiet(Join(SumLines(s))) <==> HeaderFree(s)
  {
    hide Quiet, SumLine, Hex, Join;
    QuietJoin(SumLines(s));
    forall i | 0 <= i < |s|
      ensures Quiet(SumLines(s)[i] + [NEWLINE]) <==> Quiet(s[i].name + [NEWLINE])
    {
      QuietSum(s[i]);
    }
  }

  lemma {:induction false} QuietChanges(prev: Snapshot, cur: Snapshot)
    requires HeaderFree(prev) && HeaderFree(cur)
    ensures Quiet(Join(NewLines(prev, cur))) && Quiet(Join(ModifiedLines(prev, cur))) &&
            Quiet(Join(CopiedLines(prev, cur)))
  {
    hide Quiet, Join;
    if cur == [] {
      JoinNothing();
      QuietNothing();
    } else {
      var e, init := cur[|cur| - 1], cur[..|cur| - 1];
      QuietChanges(prev, init);
      QuietOneMore(NewLines(prev, init), e.name);
      QuietOneMore(ModifiedLines(prev, init), e.name);
      var c := Classify(prev, e);
      if c.CopyOf? {
        QuietCopy(c.source, e.name);
        QuietOneMore(CopiedLines(prev, init), c.source + Arrow() + e.name);
      }
      assert NewLines(prev, init) + [] == NewLines(prev, init);
      assert ModifiedLines(prev, init) + [] == ModifiedLines(prev, init);
      assert CopiedLines(prev, init) + [] == CopiedLines(prev, init);
    }
  }

  lemma QuietOneMore(ls: seq<Text>, l: Text)
    requires Quiet(Join(ls)) && Quiet(l + [NEWLINE])
    ensures Quiet(Join(ls + [l]))
  {
    hide Quiet, Join;
    JoinSnoc(ls, l);
    JoinEnded(ls);
    QuietAppend(Join(ls), l + [NEWLINE]);
    assert Join(ls) + l + [NEWLINE] == Join(ls) + (l + [NEWLINE]);
  }

  lemma TitlesQuiet()
    ensures Quiet(NewTitle() + [NEWLINE]) && Quiet(ModifiedTitle() + [NEWLINE]) && Quiet(CopiedTitle() + [NEWLINE])
    ensures Quiet(Md5Title() + [NEWLINE]) && IsLine(Md5Title())
  {
    hide Quiet, IsHeader;
    NotHash(NewTitle());
    NotHash(ModifiedTitle());
    NotHash(CopiedTitle());
    NotHash(Md5Title());
    QuietLine(NewTitle());
    QuietLine(ModifiedTitle());
    QuietLine(CopiedTitle());
    QuietLine(Md5Title());
  }

  lemma QuietSections(prev: Snapshot, cur: Snapshot)
    requires HeaderFree(prev) && HeaderFree(cur)
    ensures Quiet(Join(SectionLines(prev, cur)))
  {
    hide Quiet, Join, NewTitle, ModifiedTitle, CopiedTitle, NewLines, ModifiedLines, CopiedLines;
    TitlesQuiet();
    QuietChanges(prev, cur);
    QuietJoin(NewLines(prev, cur));
    QuietJoin(ModifiedLines(prev, cur));
    QuietJoin(CopiedLines(prev, cur));
    QuietJoin(SectionLines(prev, cur));
  }

  /** The text of a block behind its header. */
  function Tail(prev: Snapshot, cur: Snapshot): Text {
    Join(SectionLines(prev, cur) + ([Md5Title()] + SumLines(cur)))
  }

  /** It holds a header when a name of the commit does, and when it holds one, a name of the
      commit or of the one before does. */
  lemma TailQuiet(prev: Snapshot, cur: Snapshot)
    requires Named(cur)
    ensures HeaderFree(prev) && HeaderFree(cur) ==> Quiet(Tail(prev, cur))
    ensures Quiet(Tail(prev, cur)) ==> HeaderFree(cur)
  {
    hide Quiet, Join, SectionLines, Md5Title, SumLines, HeaderFree, Named;
    var sections, digests := SectionLines(prev, cur), [Md5Title()] + SumLines(cur);
    TitlesQuiet();
    JoinAppend(sections, digests);
    JoinEnded(sections);
    QuietAppend(Join(sections), Join(digests));
    JoinCons(Md5Title(), SumLines(cur));
    QuietAppend(Md5Title() + [NEWLINE], Join(SumLines(cur)));
    QuietSums(cur);
    if HeaderFree(prev) && HeaderFree(cur) {
      QuietSections(prev, cur);
    }
  }

  // ---- the lines of a record ---------------------------------------------------------------------

  lemma HeaderLineShape(n: nat)
    ensures IsLine(HeaderLine(n)) && IsHeader(HeaderLine(n)) && HeaderLine(n) != []
  {
    NumberRead(n);
    var d := Digits(n);
    assert forall i :: 0 <= i < |d| ==> IsDigit(d[i]);
  }

  /** The commit before the last one. */
  function Previous(h: seq<Snapshot>): Snapshot {
    if |h| < 2 then [] else h[|h| - 2]
  }

  /** The lines before the last block. */
  function Before(h: seq<Snapshot>): seq<Text>
    requires h != []
  {
    if |h| == 1 then [] else LinesOf(RecordOf(h[..|h| - 1])) + [[]]
  }

  /** The lines of the last block. */
  function LastLines(h: seq<Snapshot>): seq<Text>
    requires h != []
  {
    LinesOf(Join(Block(h, |h|)))
  }

  /** A block's text begins with its header and goes on with its tail. */
  lemma LastLinesShape(h: seq<Snapshot>)
    requires h != []
    ensures LastLines(h) == [HeaderLine(|h|)] + LinesOf(Tail(Previous(h), h[|h| - 1]))
    ensures Join(LastLines(h)) == Join(Block(h, |h|))
  {
    hide Join, LinesOf, HeaderLine, SectionLines, Md5Title, SumLines;
    var prev, cur := Previous(h), h[|h| - 1];
    var lines := SectionLines(prev, cur) + ([Md5Title()] + SumLines(cur));
    assert Block(h, |h|) == [HeaderLine(|h|)] + lines;
    JoinCons(HeaderLine(|h|), lines);
    HeaderLineShape(|h|);
    LinesOfCons(HeaderLine(|h|), Join(lines));
    JoinEnded(Block(h, |h|));
    JoinLinesOf(Join(Block(h, |h|)));
  }

  /** The lines of a record are those of the record before, an empty one, and the last block's. */
  lemma LinesOfRecord(h: seq<Snapshot>)
    requires h != []
    ensures LinesOf(RecordOf(h)) == Before(h) + LastLines(h)
  {
    hide Join, LinesOf, Block;
    if |h| > 1 {
      var before := RecordLines(h[..|h| - 1]);
      JoinAppend(before + [[]], Block(h, |h|));
      JoinSnoc(before, []);
      JoinEnded(before + [[]]);
      JoinEnded(before);
      LinesOfAppend(Join(before + [[]]), Join(Block(h, |h|)));
      assert Join(before) + [] + [NEWLINE] == Join(before) + ([] + [NEWLINE]);
      LinesOfAppend(Join(before), [] + [NEWLINE]);
      LinesOfOne([]);
    }
  }

  /** A block does not end with an empty line. */
  lemma LastLineFull(h: seq<Snapshot>)
    requires h != [] && Named(h[|h| - 1])
    ensures LastLines(h) != [] && LastLines(h)[|LastLines(h)| - 1] != []
  {
    hide Join, LinesOf, SectionLines, HeaderLine;
    var bl, s := Block(h, |h|), h[|h| - 1];
    var l := bl[|bl| - 1];
    assert l == if s == [] then Md5Title() else SumLine(s[|s| - 1]);
    assert l[|l| - 1] != NEWLINE by {
      if s != [] {
        var sum := s[|s| - 1].sum;
        assert l[|l| - 1] == sum[|sum| - 1];
      }
    }
    assert bl == bl[..|bl| - 1] + [l];
    JoinSnoc(bl[..|bl| - 1], l);
    LastLineNotEmpty(Join(bl));
  }

  // ---- records that can be read at all -------------------------------------------------------------

  /** The last "(MD5)" of some lines. */
  function LastMd5(ls: seq<Text>): (md: nat)
    requires exists i :: 1 < i < |ls| && ls[i] == Md5Title()
    ensures 1 < md < |ls| && ls[md] == Md5Title() && forall i :: md < i < |ls| ==> ls[i] != Md5Title()
  {
    if ls[|ls| - 1] == Md5Title() then |ls| - 1
    else
      var init := ls[..|ls| - 1];
      assert exists i :: 1 < i < |init| && init[i] == Md5Title() by {
        var i :| 1 < i < |ls| && ls[i] == Md5Title();
        assert init[i] == Md5Title();
      }
      LastMd5(init)
  }

  /** What the program has written: a header comes first, and "(MD5)" behind the line after it. */
  predicate Written(file: Text) {
    var ls := LinesOf(file);
    && Ended(file) && |file| >= 2 && ls != [] && IsHeader(ls[0])
    && exists i :: 1 < i < |ls| && ls[i] == Md5Title()
  }

  /** A block makes a record readable, and a readable record stays so when lines are added. */
  lemma BlockWritten(n: nat, prev: Snapshot, cur: Snapshot)
    ensures Written(Join(BlockLines(n, prev, cur)))
  {
    hide Join, LinesOf, HeaderLine, SectionLines, Md5Title, SumLines, IsHeader;
    var sections, sums := SectionLines(prev, cur), Join(SumLines(cur));
    HeaderLineShape(n);
    TitlesQuiet();
    JoinAppend([HeaderLine(n)] + sections, [Md5Title()] + SumLines(cur));
    JoinCons(HeaderLine(n), sections);
    JoinCons(Md5Title(), SumLines(cur));
    JoinEnded(BlockLines(n, prev, cur));
    JoinEnded(sections);
    var file, text := Join(BlockLines(n, prev, cur)), Join(sections);
    SectionsExist(prev, cur);
    assert file == HeaderLine(n) + [NEWLINE] + (text + (Md5Title() + [NEWLINE] + sums));
    LinesOfCons(HeaderLine(n), text + (Md5Title() + [NEWLINE] + sums));
    LinesOfAppend(text, Md5Title() + [NEWLINE] + sums);
    LinesOfCons(Md5Title(), sums);
    var ls, i := LinesOf(file), 1 + |LinesOf(text)|;
    assert ls[i] == Md5Title();
  }

  lemma SectionsExist(prev: Snapshot, cur: Snapshot)
    ensures SectionLines(prev, cur) != []
  {
  }

  lemma WrittenGrows(file: Text, more: Text)
    requires Written(file) && Ended(more)
    ensures Written(file + more)
  {
    hide LinesOf, IsHeader, Md5Title;
    LinesOfAppend(file, more);
    var ls := LinesOf(file);
    var i :| 1 < i < |ls| && ls[i] == Md5Title();
    assert LinesOf(file + more)[i] == Md5Title();
  }

  lemma {:induction false} RecordWritten(h: seq<Snapshot>)
    requires h != []
    ensures Written(RecordOf(h))
  {
    hide Join, Block, Written;
    if |h| == 1 {
      FirstWritten(h);
    } else {
      RecordWritten(h[..|h| - 1]);
      var before := RecordLines(h[..|h| - 1]);
      JoinAppend(before, [[]] + Block(h, |h|));
      JoinEnded([[]] + Block(h, |h|));
      WrittenGrows(RecordOf(h[..|h| - 1]), Join([[]] + Block(h, |h|)));
      assert RecordLines(h) == before + ([[]] + Block(h, |h|));
    }
  }

  lemma FirstWritten(h: seq<Snapshot>)
    requires |h| == 1
    ensures Written(RecordOf(h))
  {
    hide BlockLines, Written, Join;
    BlockWritten(1, [], h[0]);
  }

  // ---- the last commit in the lines of a record ------------------------------------------------------

  /** The lines of a record in front of the digests of its last commit. */
  function Front(h: seq<Snapshot>): seq<Text>
    requires h != []
  {
    Before(h) + [HeaderLine(|h|)] + LinesOf(Join(SectionLines(Previous(h), h[|h| - 1])))
  }

  /** A record ends in the digests of its last commit, whatever its files are called. */
  lemma RecordTextEnds(h: seq<Snapshot>)
    requires h != []
    ensures LinesOf(RecordOf(h)) == Front(h) + [Md5Title()] + LinesOf(Join(SumLines(h[|h| - 1])))
    ensures |Front(h)| > 1
  {
    hide Join, LinesOf, SectionLines, HeaderLine, Md5Title, SumLines, RecordOf, LastLines;
    var prev, cur := Previous(h), h[|h| - 1];
    var sections, sums := SectionLines(prev, cur), Join(SumLines(cur));
    LinesOfRecord(h);
    LastLinesShape(h);
    TitlesQuiet();
    JoinAppend(sections, [Md5Title()] + SumLines(cur));
    JoinCons(Md5Title(), SumLines(cur));
    JoinEnded(sections);
    SectionsExist(prev, cur);
    LinesOfAppend(Join(sections), Md5Title() + [NEWLINE] + sums);
    LinesOfCons(Md5Title(), sums);
    assert LinesOf(Tail(prev, cur)) == LinesOf(Join(sections)) + ([Md5Title()] + LinesOf(sums));
  }

  lemma WordPlain(name: Text)
    requires Word(name)
    ensures IsLine(name) && !IsHeader(name)
  {
    HeaderBytes(name);
    assert Header()[1] == SPACE && (|name| >= 8 ==> name[1] != SPACE);
  }

  lemma WordsHeaderFree(s: Snapshot)
    requires Words(s)
    ensures HeaderFree(s)
  {
    hide Quiet, Word, IsHeader;
    forall i | 0 <= i < |s|
      ensures Quiet(s[i].name + [NEWLINE])
    {
      WordPlain(s[i].name);
      QuietLine(s[i].name);
    }
  }

  /** Names of one word put the digests' lines behind the last "(MD5)". */
  lemma WordsCollected(front: seq<Text>, s: Snapshot)
    requires |front| > 1 && Named(s) && Words(s)
    ensures
      var ls := front + [Md5Title()] + LinesOf(Join(SumLines(s)));
      && ls[|front|] == Md5Title() && LastMd5(ls) == |front| && ls[|front| + 1..] == SumLines(s)
  {
    hide Join, LinesOf, IsHeader, LastMd5, SumLine, Md5Title, Word, Hex;
    forall i | 0 <= i < |s|
      ensures IsLine(SumLines(s)[i]) && SumLines(s)[i] != Md5Title()
    {
      WordSum(s[i]);
    }
    LinesOfJoin(SumLines(s));
    var ls := front + [Md5Title()] + LinesOf(Join(SumLines(s)));
    assert ls[|front|] == Md5Title();
    assert forall i :: |front| < i < |ls| ==> ls[i] == SumLines(s)[i - |front| - 1];
  }

  lemma WordSum(e: Entry)
    requires Word(e.name) && Hex(e.sum)
    ensures IsLine(SumLine(e)) && SumLine(e) != Md5Title()
  {
    assert SumLine(e)[|e.name|] == SPACE;
  }
}
