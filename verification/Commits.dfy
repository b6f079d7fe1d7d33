/** The commands status and commit: reading the last commit back, comparing, and writing. */
module Commits {
  import opened Bytes
  import opened CommitRecord
  import opened CommitScan
  import opened CommitSections
  import opened Lines
  import opened RecordText
  import opened Wrappers

  // ---- the last commit, read back --------------------------------------------------------------

  /** The files collect_old_list reads of the last commit; a fault if there is none. */
  function OldList(file: Text): Option<Snapshot>
    requires Written(file)
  {
    var ls := LinesOf(file);
    var md := LastMd5(ls);
    ReadBack(Tokens(Join(Rev(ls[md + 1..]))), |ls| - md - 1)
  }

  /** The number it takes for the last commit's: that of the nearest header before the list. */
  function OldNumber(file: Text): nat
    requires Written(file)
  {
    var ls := LinesOf(file);
    var front := ls[..LastMd5(ls)];
    assert front[0] == ls[0];
    NumberOf(front[LastHeader(front)])
  }

  /** On the record of any history the files of the last commit are read back exactly when every
      one of their names is a single word. */
  lemma OldListIff(h: seq<Snapshot>)
    requires h != [] && Named(h[|h| - 1])
    ensures Written(RecordOf(h))
    ensures OldList(RecordOf(h)) == Some(h[|h| - 1]) <==> Words(h[|h| - 1])
  {
    hide Join, Rev, LinesOf, RecordOf, SumLines, Tokens, PairTokens, Md5Title, Words, ReadBack, LastMd5, Front,
         Written, Named;
    RecordWritten(h);
    var file, s := RecordOf(h), h[|h| - 1];
    var ls := LinesOf(file);
    if Words(s) {
      RecordTextEnds(h);
      WordsCollected(Front(h), s);
      PairsReadBackIff(s);
      PairsStored(s);
    } else if OldList(file) == Some(s) {
      var md := LastMd5(ls);
      ReadBackLength(Tokens(Join(Rev(ls[md + 1..]))), |ls| - md - 1);
      StoredAreWords(Join(Rev(ls[md + 1..])), s);
      assert false;
    }
  }

  lemma ReadBackLength(tokens: seq<Text>, num: nat)
    ensures ReadBack(tokens, num).Some? ==> |ReadBack(tokens, num).value| == num
  {
  }

  /** Histories whose last commit can be read back: its names are single words, and no name of
      the commit before puts a header into its sections. */
  predicate Readable(h: seq<Snapshot>) {
    h == [] || (Named(h[|h| - 1]) && Words(h[|h| - 1]) && HeaderFree(Previous(h)))
  }

  lemma OldNumberOf(h: seq<Snapshot>)
    requires h != [] && Readable(h)
    ensures Written(RecordOf(h)) && OldNumber(RecordOf(h)) == |h|
  {
    hide Join, LinesOf, RecordOf, SumLines, SectionLines, Md5Title, Words, LastMd5, Before, Written, Named,
         NumberOf, IsHeader, HeaderLine, HeaderFree, LastHeader;
    RecordWritten(h);
    var s := h[|h| - 1];
    var ls, front := LinesOf(RecordOf(h)), Front(h);
    RecordTextEnds(h);
    WordsCollected(front, s);
    WordsHeaderFree(s);
    QuietSections(Previous(h), s);
    var sections := LinesOf(Join(SectionLines(Previous(h), s)));
    var o := |Before(h)|;
    NumberRead(|h|);
    assert front[o] == HeaderLine(|h|);
    assert forall i :: o < i < |front| ==> front[i] == sections[i - o - 1];
    assert ls[..|front|] == front;
  }

  /** collect_old_list: the files of the last commit in their order, and its number if asked. */
  method CollectOldList(file: Text, wantNumber: bool)
    returns (fault: bool, list: seq<Text>, md5: seq<Text>, number: int)
    requires Written(file)
    ensures fault <==> OldList(file).None?
    ensures !fault ==> Holds(list, md5, OldList(file).value) && number == if wantNumber then OldNumber(file) else 0
  {
    hide IsHeader, NumberOf, Md5Title, Join, Rev, Tokens, ReadBack, LinesOf, LastMd5, Holds, Start;
    ghost var ls := LinesOf(file);
    ghost var md := LastMd5(ls);
    JoinLinesOf(file);
    var line, num, tempLine, pos, filesize := ScanSums(file, ls, md);
    fault, list, md5 := FillPairs(line, num);
    if fault || !wantNumber {
      return fault, list, md5, 0;
    }
    number := ScanHeader(file, tempLine, pos, filesize, ls, md);
  }

  // ---- status -------------------------------------------------------------------------------------

  /** One file of the directory, compared with the last commit. */
  method CompareFile(e: Entry, list: seq<Text>, md5: seq<Text>, ghost prev: Snapshot)
    returns (newFile: Text, modified: Text, copied: Text)
    requires Holds(list, md5, prev)
    ensures newFile == if Classify(prev, e) == Created then e.name + [NEWLINE] else []
    ensures modified == if Classify(prev, e) == Modified then e.name + [NEWLINE] else []
    ensures copied == if Classify(prev, e).CopyOf? then Classify(prev, e).source + Arrow() + e.name + [NEWLINE] else []
  {
    newFile, modified, copied := [], [], [];
    var filenameExist := false;
    var j := 0;
    while j < |list|
      invariant j <= |list| && !filenameExist && modified == []
      invariant NameIndex(prev, e.name) == NameIndex(prev, e.name, j)
    {
      if e.name == list[j] {
        filenameExist := true;
        if e.sum != md5[j] {
          modified := modified + e.name + [NEWLINE];
        }
        break;
      }
      j := j + 1;
    }
    if !filenameExist {
      j := 0;
      while j < |list|
        invariant j <= |list| && copied == []
        invariant SumIndex(prev, e.sum) == SumIndex(prev, e.sum, j)
      {
        if e.sum == md5[j] {
          copied := copied + list[j] + Arrow() + e.name + [NEWLINE];
          return;
        }
        j := j + 1;
      }
      newFile := newFile + e.name + [NEWLINE];
    }
  }

  lemma JoinUnless(ls: seq<Text>, b: bool, l: Text)
    ensures Join(ls + if b then [l] else []) == Join(ls) + if b then l + [NEWLINE] else []
  {
    hide Join;
    if b {
      JoinSnoc(ls, l);
    } else {
      assert ls + [] == ls;
    }
  }

  /** The three sections and the digests, as current_status collects them. */
  method CurrentStatus(list: seq<Text>, md5: seq<Text>, cur: Snapshot, ghost prev: Snapshot)
    returns (newFile: Text, modified: Text, copied: Text, sums: Text)
    requires Holds(list, md5, prev)
    ensures newFile == Join(NewLines(prev, cur)) && modified == Join(ModifiedLines(prev, cur))
    ensures copied == Join(CopiedLines(prev, cur)) && sums == Join(SumLines(cur))
    ensures StatusSays(prev, cur, newFile, modified, copied)
  {
    hide Join, Classify, SumLine, StatusSays;
    newFile, modified, copied, sums := [], [], [], [];
    var i := 0;
    assert cur[..0] == [];
    NothingYet(prev, cur[..0]);
    while i < |cur|
      invariant i <= |cur|
      invariant newFile == Join(NewLines(prev, cur[..i])) && modified == Join(ModifiedLines(prev, cur[..i]))
      invariant copied == Join(CopiedLines(prev, cur[..i])) && sums == Join(SumLines(cur[..i]))
    {
      var e := cur[i];
      var n, m, c := CompareFile(e, list, md5, prev);
      OneMoreFile(prev, cur, i);
      newFile := newFile + n;
      modified := modified + m;
      copied := copied + c;
      sums := sums + e.name + [SPACE] + e.sum + [NEWLINE];
      i := i + 1;
    }
    assert cur[..|cur|] == cur;
    StatusMeans(prev, cur);
  }

  lemma NothingYet(prev: Snapshot, cur: Snapshot)
    requires cur == []
    ensures Join(NewLines(prev, cur)) == [] && Join(ModifiedLines(prev, cur)) == []
    ensures Join(CopiedLines(prev, cur)) == [] && Join(SumLines(cur)) == []
  {
  }

  lemma OneMoreFile(prev: Snapshot, cur: Snapshot, i: nat)
    requires i < |cur|
    ensures
      var (a, b, e, c) := (cur[..i], cur[..i + 1], cur[i], Classify(prev, cur[i]));
      && Join(NewLines(prev, b)) == Join(NewLines(prev, a)) + (if c == Created then e.name + [NEWLINE] else [])
      && Join(ModifiedLines(prev, b)) ==
         Join(ModifiedLines(prev, a)) + (if c == Modified then e.name + [NEWLINE] else [])
      && Join(CopiedLines(prev, b)) == Join(CopiedLines(prev, a))
           + (if c.CopyOf? then c.source + Arrow() + e.name + [NEWLINE] else [])
      && Join(SumLines(b)) == Join(SumLines(a)) + e.name + [SPACE] + e.sum + [NEWLINE]
  {
    hide Join, Classify;
    var (a, b, e, c) := (cur[..i], cur[..i + 1], cur[i], Classify(prev, cur[i]));
    assert b[..|b| - 1] == a;
    JoinUnless(NewLines(prev, a), c == Created, e.name);
    JoinUnless(ModifiedLines(prev, a), c == Modified, e.name);
    JoinUnless(CopiedLines(prev, a), c.CopyOf?, if c.CopyOf? then c.source + Arrow() + e.name else []);
    assert SumLines(b) == SumLines(a) + [SumLine(e)];
    JoinSnoc(SumLines(a), SumLine(e));
    assert Join(SumLines(a)) + SumLine(e) + [NEWLINE] == Join(SumLines(a)) + e.name + [SPACE] + e.sum + [NEWLINE];
  }

  // ---- commit ---------------------------------------------------------------------------------------

  lemma FirstSections(cur: Snapshot)
    ensures ModifiedLines([], cur) == [] && CopiedLines([], cur) == []
    ensures |NewLines([], cur)| == |cur| && forall i :: 0 <= i < |cur| ==> NewLines([], cur)[i] == cur[i].name
  {
  }

  /** The first commit: every file is new. */
  method CommitFirst(cur: Snapshot) returns (record: Option<Text>)
    ensures record == if cur == [] then None else Some(RecordOf([cur]))
  {
    hide Join, HeaderLine, NewTitle, ModifiedTitle, CopiedTitle, Md5Title, NewLines, ModifiedLines, CopiedLines,
         SumLine;
    if |cur| == 0 {
      return None;
    }
    var fd := HeaderLine(1) + [NEWLINE] + (NewTitle() + [NEWLINE]);
    ghost var start := fd;
    var i := 0;
    assert cur[..0] == [];
    NothingYet([], cur[..0]);
    while i < |cur|
      invariant i <= |cur| && fd == start + Join(NewLines([], cur[..i]))
    {
      OneMoreFile([], cur, i);
      fd := fd + cur[i].name;
      fd := fd + [NEWLINE];
      i := i + 1;
    }
    assert cur[..|cur|] == cur;
    fd := fd + (ModifiedTitle() + [NEWLINE]) + (CopiedTitle() + [NEWLINE]) + (Md5Title() + [NEWLINE]);
    ghost var middle := fd;
    i := 0;
    while i < |cur|
      invariant i <= |cur| && fd == middle + Join(SumLines(cur[..i]))
    {
      OneMoreFile([], cur, i);
      fd := fd + (cur[i].name + [SPACE] + cur[i].sum + [NEWLINE]);
      i := i + 1;
    }
    FirstSections(cur);
    BlockParts(1, [], cur);
    NothingYet([], []);
    EmptyJoin();
    assert fd == Join(BlockLines(1, [], cur));
    return Some(fd);
  }

  /** One more block behind the record. */
  lemma RecordGrows(h: seq<Snapshot>, cur: Snapshot)
    requires h != []
    ensures RecordOf(h + [cur]) == RecordOf(h) + [NEWLINE] + Join(BlockLines(|h| + 1, h[|h| - 1], cur))
  {
    hide Join, BlockLines;
    var g := h + [cur];
    assert g[..|g| - 1] == h;
    JoinAppend(RecordLines(h) + [[]], Block(g, |g|));
    JoinSnoc(RecordLines(h), []);
    assert Join(RecordLines(h)) + [] == Join(RecordLines(h));
  }

  /** The record after a commit of the directory: a fault, the same record if nothing is new,
      modified or copied, or one more block behind it. */
  function AfterCommit(file: Text, cur: Snapshot): Option<Text>
    requires Written(file)
  {
    match OldList(file)
    case None => None
    case Some(prev) =>
      Some(if Changed(prev, cur) then file + [NEWLINE] + Join(BlockLines(OldNumber(file) + 1, prev, cur)) else file)
  }

  lemma EmptyIff(ls: seq<Text>)
    ensures Join(ls) == [] <==> ls == []
  {
  }

  /** The writes of a later commit. */
  method WriteBlock(n: nat, newFile: Text, modified: Text, copied: Text, sums: Text, ghost prev: Snapshot,
    ghost cur: Snapshot)
    returns (fd: Text)
    requires newFile == Join(NewLines(prev, cur)) && modified == Join(ModifiedLines(prev, cur))
    requires copied == Join(CopiedLines(prev, cur)) && sums == Join(SumLines(cur))
    ensures fd == [NEWLINE] + Join(BlockLines(n, prev, cur))
  {
    hide Join, HeaderLine, NewTitle, ModifiedTitle, CopiedTitle, Md5Title, NewLines, ModifiedLines, CopiedLines,
         SumLines, BlockLines;
    fd := [NEWLINE] + (HeaderLine(n) + [NEWLINE]);
    fd := fd + (NewTitle() + [NEWLINE]) + newFile;
    fd := fd + (ModifiedTitle() + [NEWLINE]) + modified;
    fd := fd + (CopiedTitle() + [NEWLINE]) + copied;
    fd := fd + (Md5Title() + [NEWLINE]) + sums;
    BlockParts(n, prev, cur);
  }

  /** A commit of an existing record. A fault comes before anything is written. */
  method CommitNext(record: Text, cur: Snapshot) returns (fault: bool, after: Text)
    requires Written(record)
    ensures fault <==> AfterCommit(record, cur).None?
    ensures after == if fault then record else AfterCommit(record, cur).value
  {
    hide Written, OldList, OldNumber, Join, HeaderLine, NewTitle, ModifiedTitle, CopiedTitle, Md5Title, NewLines,
         ModifiedLines, CopiedLines, Holds;
    var list, md5, number;
    fault, list, md5, number := CollectOldList(record, true);
    after := record;
    if fault {
      return;
    }
    ghost var prev := OldList(record).value;
    var newFile, modified, copied, sums := CurrentStatus(list, md5, cur, prev);
    EmptyIff(NewLines(prev, cur));
    EmptyIff(ModifiedLines(prev, cur));
    EmptyIff(CopiedLines(prev, cur));
    if |newFile| == 0 && |modified| == 0 && |copied| == 0 {
      return;
    }
    var fd := WriteBlock(number + 1, newFile, modified, copied, sums, prev, cur);
    after := record + fd;
    assert record + fd == record + [NEWLINE] + Join(BlockLines(OldNumber(record) + 1, prev, cur));
  }

  /** What a commit makes of the record, if there is one yet. */
  function CommitTo(record: Option<Text>, cur: Snapshot): Option<Text>
    requires record.Some? ==> Written(record.value)
  {
    match record
    case None => RecordFor(if cur == [] then [] else [cur])
    case Some(file) => if AfterCommit(file, cur).None? then record else AfterCommit(file, cur)
  }

  /** commit. */
  method Commit(record: Option<Text>, cur: Snapshot) returns (fault: bool, after: Option<Text>)
    requires record.Some? ==> Written(record.value)
    ensures fault <==> record.Some? && AfterCommit(record.value, cur).None?
    ensures after == CommitTo(record, cur) && (fault ==> after == record)
  {
    hide Written, AfterCommit, RecordOf;
    if record.None? {
      fault := false;
      after := CommitFirst(cur);
    } else {
      var file;
      fault, file := CommitNext(record.value, cur);
      after := Some(file);
    }
  }

  /** Whatever the names: a record stays one the program can read, and nothing already recorded is
      changed. */
  lemma CommitKeeps(record: Option<Text>, cur: Snapshot)
    requires record.Some? ==> Written(record.value)
    ensures CommitTo(record, cur).Some? ==> Written(CommitTo(record, cur).value)
    ensures record.Some? ==> CommitTo(record, cur).Some? && record.value <= CommitTo(record, cur).value
  {
    hide Written, OldList, OldNumber, BlockLines, Join, Changed;
    if record.None? {
      if cur != [] {
        RecordWritten([cur]);
      }
    } else if AfterCommit(record.value, cur).Some? && AfterCommit(record.value, cur) != record {
      var file, prev := record.value, OldList(record.value).value;
      var block := BlockLines(OldNumber(file) + 1, prev, cur);
      JoinCons([], block);
      JoinEnded([[]] + block);
      WrittenGrows(file, Join([[]] + block));
      assert file + Join([[]] + block) == file + [NEWLINE] + Join(block);
    }
  }

  /** As long as the last commit can be read back, the record of a history becomes the record of
      the extended history. */
  lemma CommitExtends(h: seq<Snapshot>, cur: Snapshot)
    requires Readable(h)
    ensures RecordFor(h).Some? ==> Written(RecordFor(h).value) && AfterCommit(RecordFor(h).value, cur).Some?
    ensures CommitTo(RecordFor(h), cur) == RecordFor(Extend(h, cur))
  {
    hide Written, OldList, OldNumber, BlockLines, Join, Changed, RecordOf, Words, Named, HeaderFree;
    if h != [] {
      OldListIff(h);
      OldNumberOf(h);
      RecordGrows(h, cur);
    }
  }

  // ---- runs of commits ---------------------------------------------------------------------------------

  /** The record after a commit in each of the directory's states, in order. */
  function RecordAfter(snapshots: seq<Snapshot>): (record: Option<Text>)
    ensures record.Some? ==> Written(record.value)
  {
    if snapshots == [] then None
    else
      var before, cur := RecordAfter(snapshots[..|snapshots| - 1]), snapshots[|snapshots| - 1];
      CommitKeeps(before, cur);
      CommitTo(before, cur)
  }

  /** States of a directory in which a file has one name, and before another commit follows the
      names are single words. */
  predicate Sound(snapshots: seq<Snapshot>) {
    && (forall i :: 0 <= i < |snapshots| ==> Directory(snapshots[i]))
    && forall i :: 0 <= i < |snapshots| - 1 ==> Words(snapshots[i])
  }

  lemma LegibleReadable(h: seq<Snapshot>)
    requires Recorded(h) && Legible(h) && (h != [] ==> Words(h[|h| - 1]))
    ensures Readable(h)
  {
    hide Words, HeaderFree, Changed, Named;
    WordsHeaderFree(Previous(h)) by {
      NoFilesWords();
    }
  }

  lemma NoFilesWords()
    ensures Words([])
  {
  }

  /** Over every run of commits: if the names of all directory states but the last are single
      words, the record is that of the history of the snapshots. */
  lemma {:induction false} RunRecordsHistory(snapshots: seq<Snapshot>)
    requires Sound(snapshots)
    ensures RecordAfter(snapshots) == RecordFor(History(snapshots))
    ensures Recorded(History(snapshots)) && Legible(History(snapshots))
  {
    hide Recorded, RecordFor, CommitTo, Extend, Directory, Words, Readable, Legible, Written;
    HistoryRecorded(snapshots);
    if snapshots == [] {
      NothingRecorded();
    } else {
      var init, cur := snapshots[..|snapshots| - 1], snapshots[|snapshots| - 1];
      RunRecordsHistory(init);
      HistoryRecorded(init);
      var h := History(init);
      assert forall n :: 0 <= n < |h| ==> Words(h[n]);
      ExtendLegible(h, cur);
      LegibleReadable(h);
      CommitExtends(h, cur);
    }
  }

  lemma NothingRecorded()
    ensures RecordFor([]) == None && Legible([])
  {
  }

  lemma ExtendLegible(h: seq<Snapshot>, cur: Snapshot)
    requires forall n :: 0 <= n < |h| ==> Words(h[n])
    ensures Legible(h) && Legible(Extend(h, cur))
  {
    hide Words, Changed;
  }
}
