/** What the sections of a commit are to show, said of the two directory states alone, and the bytes
    of a block. */
module CommitSections {
  import opened Bytes
  import opened CommitRecord
  import opened Decimal
  import opened Lines

  datatype Section = NewFiles | ModifiedFiles | CopiedFiles

  /** The first file of that name, and the first one of that digest. */
  predicate FirstNamed(prev: Snapshot, name: Text, j: nat) {
    j < |prev| && prev[j].name == name && forall k :: 0 <= k < j ==> prev[k].name != name
  }

  predicate FirstSummed(prev: Snapshot, sum: Text, j: nat) {
    j < |prev| && prev[j].sum == sum && forall k :: 0 <= k < j ==> prev[k].sum != sum
  }

  predicate Unnamed(prev: Snapshot, name: Text) {
    forall j :: 0 <= j < |prev| ==> prev[j].name != name
  }

  /** The file is in the section: modified if the first file of its name has another digest; a copy
      if there was none of its name but one of its digest; new if there was neither. */
  ghost predicate Belongs(section: Section, prev: Snapshot, e: Entry) {
    match section
    case NewFiles => Unnamed(prev, e.name) && forall j :: 0 <= j < |prev| ==> prev[j].sum != e.sum
    case ModifiedFiles => exists j: nat :: FirstNamed(prev, e.name, j) && prev[j].sum != e.sum
    case CopiedFiles => Unnamed(prev, e.name) && exists j: nat :: FirstSummed(prev, e.sum, j)
  }

  /** Its line there is its name; for a copy, the first file of its digest, " => ", and its name. */
  ghost predicate LineFor(section: Section, prev: Snapshot, e: Entry, line: Text) {
    if section.CopiedFiles? then
      exists j: nat :: FirstSummed(prev, e.sum, j) && line == prev[j].name + [32, 61, 62, 32] + e.name
    else line == e.name
  }

  /** The lines are those of the files at the places `at`, which are all that belong, in order. */
  ghost predicate Shows(section: Section, prev: Snapshot, cur: Snapshot, at: seq<nat>, lines: seq<Text>) {
    && |at| == |lines|
    && (forall m, n :: 0 <= m < n < |at| ==> at[m] < at[n])
    && (forall m :: 0 <= m < |at| ==>
          at[m] < |cur| && Belongs(section, prev, cur[at[m]]) && LineFor(section, prev, cur[at[m]], lines[m]))
    && forall i :: 0 <= i < |cur| && Belongs(section, prev, cur[i]) ==> i in at
  }

  ghost predicate SectionOf(section: Section, prev: Snapshot, cur: Snapshot, lines: seq<Text>) {
    exists at :: Shows(section, prev, cur, at, lines)
  }

  /** A file is in no section exactly when the first file of its name has its digest, and never in
      two. */
  lemma OneSection(prev: Snapshot, e: Entry)
    ensures !Belongs(NewFiles, prev, e) && !Belongs(ModifiedFiles, prev, e) && !Belongs(CopiedFiles, prev, e) <==>
            exists j: nat :: FirstNamed(prev, e.name, j) && prev[j].sum == e.sum
    ensures !(Belongs(NewFiles, prev, e) && Belongs(ModifiedFiles, prev, e))
    ensures !(Belongs(NewFiles, prev, e) && Belongs(CopiedFiles, prev, e))
    ensures !(Belongs(ModifiedFiles, prev, e) && Belongs(CopiedFiles, prev, e))
  {
    ClassMeans(prev, e);
    var j := NameIndex(prev, e.name);
    if j >= 0 {
      assert FirstNamed(prev, e.name, j);
    }
  }

  /** What the comparison finds is where the file belongs. */
  lemma ClassMeans(prev: Snapshot, e: Entry)
    ensures Classify(prev, e) == Created <==> Belongs(NewFiles, prev, e)
    ensures Classify(prev, e) == Modified <==> Belongs(ModifiedFiles, prev, e)
    ensures Classify(prev, e).CopyOf? <==> Belongs(CopiedFiles, prev, e)
    ensures Classify(prev, e).CopyOf? ==>
              LineFor(CopiedFiles, prev, e, Classify(prev, e).source + Arrow() + e.name)
  {
    var j, k := NameIndex(prev, e.name), SumIndex(prev, e.sum);
    if j >= 0 {
      assert FirstNamed(prev, e.name, j);
      assert forall i: nat :: FirstNamed(prev, e.name, i) ==> i == j;
    }
    if k >= 0 {
      assert FirstSummed(prev, e.sum, k);
    }
  }

  /** One more file, and its line if it belongs. */
  lemma ShowsOneMore(section: Section, prev: Snapshot, cur: Snapshot, at: seq<nat>, lines: seq<Text>, line: Text)
    returns (at': seq<nat>)
    requires cur != [] && Shows(section, prev, cur[..|cur| - 1], at, lines)
    requires Belongs(section, prev, cur[|cur| - 1]) ==> LineFor(section, prev, cur[|cur| - 1], line)
    ensures Shows(section, prev, cur, at', lines + if Belongs(section, prev, cur[|cur| - 1]) then [line] else [])
  {
    hide Belongs, LineFor;
    var n := |cur| - 1;
    var init := cur[..n];
    assert forall i :: 0 <= i < n ==> init[i] == cur[i];
    if Belongs(section, prev, cur[n]) {
      at' := at + [n];
      forall i | 0 <= i < |cur| && Belongs(section, prev, cur[i]) ensures i in at' {
        assert i < n ==> init[i] == cur[i];
        assert at'[|at|] == n;
      }
    } else {
      at' := at;
      assert lines + [] == lines;
      forall i | 0 <= i < |cur| && Belongs(section, prev, cur[i]) ensures i in at' {
        assert init[i] == cur[i];
      }
    }
  }

  /** The sections that the program collects show the files that belong there, in the directory's
      order. */
  lemma {:induction false} SectionsShow(prev: Snapshot, cur: Snapshot)
    ensures SectionOf(NewFiles, prev, cur, NewLines(prev, cur))
    ensures SectionOf(ModifiedFiles, prev, cur, ModifiedLines(prev, cur))
    ensures SectionOf(CopiedFiles, prev, cur, CopiedLines(prev, cur))
  {
    hide Belongs, LineFor, Shows, Classify;
    if cur == [] {
      NothingShown(prev);
    } else {
      var init, e := cur[..|cur| - 1], cur[|cur| - 1];
      var c := Classify(prev, e);
      SectionsShow(prev, init);
      ClassMeans(prev, e);
      NameLine(prev, e);
      var a :| Shows(NewFiles, prev, init, a, NewLines(prev, init));
      a := ShowsOneMore(NewFiles, prev, cur, a, NewLines(prev, init), e.name);
      var b :| Shows(ModifiedFiles, prev, init, b, ModifiedLines(prev, init));
      b := ShowsOneMore(ModifiedFiles, prev, cur, b, ModifiedLines(prev, init), e.name);
      var d :| Shows(CopiedFiles, prev, init, d, CopiedLines(prev, init));
      d := ShowsOneMore(CopiedFiles, prev, cur, d, CopiedLines(prev, init),
        if c.CopyOf? then c.source + Arrow() + e.name else []);
    }
  }

  lemma NameLine(prev: Snapshot, e: Entry)
    ensures LineFor(NewFiles, prev, e, e.name) && LineFor(ModifiedFiles, prev, e, e.name)
  {
  }

  lemma NothingShown(prev: Snapshot)
    ensures SectionOf(NewFiles, prev, [], NewLines(prev, []))
    ensures SectionOf(ModifiedFiles, prev, [], ModifiedLines(prev, []))
    ensures SectionOf(CopiedFiles, prev, [], CopiedLines(prev, []))
  {
    assert Shows(NewFiles, prev, [], [], []) && Shows(ModifiedFiles, prev, [], [], []);
    assert Shows(CopiedFiles, prev, [], [], []);
  }

  /** With every name once, a name is among the modified lines, or the new ones, exactly when its file
      belongs there. */
  lemma NameListed(section: Section, prev: Snapshot, cur: Snapshot, lines: seq<Text>, i: nat)
    requires !section.CopiedFiles? && SectionOf(section, prev, cur, lines) && Directory(cur) && i < |cur|
    ensures cur[i].name in lines <==> Belongs(section, prev, cur[i])
  {
    hide Belongs;
    var at :| Shows(section, prev, cur, at, lines);
    if Belongs(section, prev, cur[i]) {
      var m :| 0 <= m < |at| && at[m] == i;
      assert LineFor(section, prev, cur[at[m]], lines[m]);
    }
  }

  /** What status prints between its titles. */
  ghost predicate StatusSays(prev: Snapshot, cur: Snapshot, newFile: Text, modified: Text, copied: Text) {
    exists n, m, c ::
      && SectionOf(NewFiles, prev, cur, n) && SectionOf(ModifiedFiles, prev, cur, m)
      && SectionOf(CopiedFiles, prev, cur, c)
      && newFile == Join(n) && modified == Join(m) && copied == Join(c)
  }

  lemma StatusMeans(prev: Snapshot, cur: Snapshot)
    ensures
      StatusSays(prev, cur, Join(NewLines(prev, cur)), Join(ModifiedLines(prev, cur)), Join(CopiedLines(prev, cur)))
  {
    hide Join, NewLines, ModifiedLines, CopiedLines, SectionOf;
    SectionsShow(prev, cur);
  }

  /** Each file's digest behind its name and a blank. */
  predicate DigestLines(cur: Snapshot, lines: seq<Text>) {
    |lines| == |cur| && forall i :: 0 <= i < |cur| ==> lines[i] == cur[i].name + [32] + cur[i].sum
  }

  /** "# commit n", "[new_file]", "[modified]", "[copied]" and "(MD5)", each with what belongs behind
      it. */
  ghost predicate BlockSays(n: nat, prev: Snapshot, cur: Snapshot, text: Text) {
    exists news, modified, copied, sums ::
      && SectionOf(NewFiles, prev, cur, news) && SectionOf(ModifiedFiles, prev, cur, modified)
      && SectionOf(CopiedFiles, prev, cur, copied) && DigestLines(cur, sums)
      && text == [35, 32, 99, 111, 109, 109, 105, 116, 32] + Digits(n) + [10]
                 + ([91, 110, 101, 119, 95, 102, 105, 108, 101, 93, 10] + Join(news))
                 + ([91, 109, 111, 100, 105, 102, 105, 101, 100, 93, 10] + Join(modified))
                 + ([91, 99, 111, 112, 105, 101, 100, 93, 10] + Join(copied))
                 + ([40, 77, 68, 53, 41, 10] + Join(sums))
  }

  /** The text of a block, title by title. */
  lemma BlockParts(n: nat, prev: Snapshot, cur: Snapshot)
    ensures
      Join(BlockLines(n, prev, cur)) ==
      HeaderLine(n) + [NEWLINE] + (NewTitle() + [NEWLINE] + Join(NewLines(prev, cur)))
      + (ModifiedTitle() + [NEWLINE] + Join(ModifiedLines(prev, cur)))
      + (CopiedTitle() + [NEWLINE] + Join(CopiedLines(prev, cur)))
      + (Md5Title() + [NEWLINE] + Join(SumLines(cur)))
  {
    hide Join, HeaderLine, NewTitle, ModifiedTitle, CopiedTitle, Md5Title, NewLines, ModifiedLines, CopiedLines,
         SumLines;
    var a, b, c, d := [NewTitle()] + NewLines(prev, cur), [ModifiedTitle()] + ModifiedLines(prev, cur),
      [CopiedTitle()] + CopiedLines(prev, cur), [Md5Title()] + SumLines(cur);
    var lines := [HeaderLine(n)] + (a + (b + (c + d)));
    assert BlockLines(n, prev, cur) == lines;
    JoinCons(HeaderLine(n), a + (b + (c + d)));
    JoinAppend(a, b + (c + d));
    JoinAppend(b, c + d);
    JoinAppend(c, d);
    JoinCons(NewTitle(), NewLines(prev, cur));
    JoinCons(ModifiedTitle(), ModifiedLines(prev, cur));
    JoinCons(CopiedTitle(), CopiedLines(prev, cur));
    JoinCons(Md5Title(), SumLines(cur));
  }

  /** A block says which files are new, modified and copied, and every file's digest. */
  lemma BlockMeans(n: nat, prev: Snapshot, cur: Snapshot)
    ensures BlockSays(n, prev, cur, Join(BlockLines(n, prev, cur)))
  {
    hide Join, NewLines, ModifiedLines, CopiedLines, SectionOf, Digits, BlockLines;
    SectionsShow(prev, cur);
    BlockParts(n, prev, cur);
    assert DigestLines(cur, SumLines(cur));
    assert HeaderLine(n) + [NEWLINE] == [35, 32, 99, 111, 109, 109, 105, 116, 32] + Digits(n) + [10];
  }

  /** So does the last block of a record, behind the record of the commits before. */
  lemma RecordSays(h: seq<Snapshot>) returns (block: Text)
    requires h != []
    ensures BlockSays(|h|, if |h| == 1 then [] else h[|h| - 2], h[|h| - 1], block)
    ensures RecordOf(h) == (if |h| == 1 then [] else RecordOf(h[..|h| - 1]) + [10]) + block
  {
    hide Join, BlockLines, BlockSays;
    block := Join(Block(h, |h|));
    BlockMeans(|h|, if |h| == 1 then [] else h[|h| - 2], h[|h| - 1]);
    if |h| > 1 {
      var before := RecordLines(h[..|h| - 1]);
      JoinAppend(before + [[]], Block(h, |h|));
      JoinSnoc(before, []);
    }
  }
}
