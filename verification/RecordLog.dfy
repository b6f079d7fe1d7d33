/** The command log: what is printed of a record, and when that is the commits it records. */
module RecordLog {
  import opened Bytes
  import opened CommitRecord
  import opened CommitScan
  import opened Lines
  import opened RecordText

  // ---- what log prints ---------------------------------------------------------------------------

  function TrimEnd(ls: seq<Text>): (r: seq<Text>) {
    if ls == [] then []
    else
      var rest := TrimEnd(ls[1..]);
      if rest == [] && ls[0] == [] then [] else [ls[0]] + rest
  }

  /** What get_log prints for the last k headers of a text: each stretch from a header on, without
      the empty lines behind it, and an empty line before the next one. */
  function Log(ls: seq<Text>, k: int): Text {
    var h := LastHeader(ls);
    if k <= 0 || h < 0 then []
    else Join(TrimEnd(ls[h..])) + (if k > 1 && h > 0 then [NEWLINE] else []) + Log(ls[..h], k - 1)
  }

  /** The last min(k, |h|) commits, newest first, each as it stands in the record, with one empty
      line between two of them. */
  function Newest(h: seq<Snapshot>, k: int): Text {
    if k <= 0 || h == [] then []
    else Join(Block(h, |h|)) + (if k > 1 && |h| > 1 then [NEWLINE] else []) + Newest(h[..|h| - 1], k - 1)
  }

  lemma {:induction false} TrimNothing(ls: seq<Text>)
    requires ls != [] && ls[|ls| - 1] != []
    ensures TrimEnd(ls) == ls
  {
    if |ls| > 1 {
      TrimNothing(ls[1..]);
    }
    assert ls == [ls[0]] + ls[1..];
  }

  lemma {:induction false} TrimOne(ls: seq<Text>)
    ensures TrimEnd(ls + [[]]) == TrimEnd(ls)
  {
    if ls != [] {
      assert (ls + [[]])[1..] == ls[1..] + [[]];
      TrimOne(ls[1..]);
    } else {
      var empty: Text := [];
      assert ls + [empty] == [empty] && [empty][1..] == [];
    }
  }

  /** An empty line at the end prints nothing. */
  lemma LogTrailing(ls: seq<Text>, k: int)
    ensures Log(ls + [[]], k) == Log(ls, k)
  {
    hide IsHeader, TrimEnd, Join;
    NotHash([]);
    var h := LastHeader(ls);
    var longer := ls + [[]];
    assert longer[..|longer| - 1] == ls;
    assert LastHeader(longer) == h;
    if h >= 0 {
      assert longer[h..] == ls[h..] + [[]];
      TrimOne(ls[h..]);
      assert longer[..h] == ls[..h];
    }
  }

  lemma LogStep(ls: seq<Text>, q: nat, k: int)
    requires q < |ls| && IsHeader(ls[q]) && k > 0 && forall i :: q < i < |ls| ==> !IsHeader(ls[i])
    ensures Log(ls, k) == Join(TrimEnd(ls[q..])) + (if k > 1 && q > 0 then [NEWLINE] else []) + Log(ls[..q], k - 1)
  {
    hide IsHeader, TrimEnd, Join;
  }

  // ---- the log of a record ---------------------------------------------------------------------------

  /** The log, for every number of commits that can be asked for. */
  ghost predicate PrintsAll(h: seq<Snapshot>) {
    forall k: int :: Log(LinesOf(RecordOf(h)), k) == Newest(h, k)
  }

  lemma {:induction false} TrimShorter(ls: seq<Text>)
    ensures |Join(TrimEnd(ls))| <= |Join(ls)|
  {
    hide Join;
    if ls != [] {
      TrimShorter(ls[1..]);
      assert ls == [ls[0]] + ls[1..];
      JoinCons(ls[0], ls[1..]);
      JoinCons(ls[0], TrimEnd(ls[1..]));
      JoinNothing();
    }
  }

  lemma SuffixShorter(ls: seq<Text>, q: nat)
    requires 0 < q <= |ls|
    ensures |Join(TrimEnd(ls[q..]))| < |Join(ls)|
  {
    hide Join, TrimEnd;
    SplitAt(ls, q);
    JoinEnded(ls[..q]);
    TrimShorter(ls[q..]);
  }

  lemma LogOnce(ls: seq<Text>)
    ensures Log(ls, 1) == if LastHeader(ls) < 0 then [] else Join(TrimEnd(ls[LastHeader(ls)..]))
  {
    hide IsHeader, TrimEnd, Join, LastHeader;
    if LastHeader(ls) >= 0 {
      assert Log(ls[..LastHeader(ls)], 0) == [];
    }
  }

  lemma HeaderShifted(ls: seq<Text>, o: nat, bl: seq<Text>)
    requires o <= |ls| && ls[o..] == bl && LastHeader(bl) >= 0
    ensures LastHeader(ls) == o + LastHeader(bl) && ls[LastHeader(ls)..] == bl[LastHeader(bl)..]
  {
    hide LastHeader, IsHeader;
    forall i | o <= i < |ls| ensures ls[i] == bl[i - o] {
      assert ls[i] == ls[o..][i - o];
    }
  }

  /** The last block holds no header but its own. */
  predicate LastClean(h: seq<Snapshot>)
    requires h != []
  {
    Quiet(Tail(Previous(h), h[|h| - 1]))
  }

  /** The last header of the record is in its last block: the first line there, or a later one if
      the block is not clean. */
  lemma LastHeaderPlace(h: seq<Snapshot>)
    requires h != []
    ensures
      var ls, bl := LinesOf(RecordOf(h)), LastLines(h);
      && LastHeader(bl) >= 0 && LastHeader(ls) == |Before(h)| + LastHeader(bl)
      && ls[LastHeader(ls)..] == bl[LastHeader(bl)..] && (LastHeader(bl) == 0 <==> LastClean(h))
  {
    hide LinesOf, LastHeader, IsHeader, HeaderLine, Tail, RecordOf, LastLines, Before;
    var ls, bl := LinesOf(RecordOf(h)), LastLines(h);
    LinesOfRecord(h);
    LastLinesShape(h);
    HeaderLineShape(|h|);
    var tail := LinesOf(Tail(Previous(h), h[|h| - 1]));
    assert bl[0] == HeaderLine(|h|);
    assert forall i :: 0 < i < |bl| ==> bl[i] == tail[i - 1];
    assert forall i :: 0 <= i < |tail| ==> tail[i] == bl[i + 1];
    assert ls[|Before(h)|..] == bl;
    HeaderShifted(ls, |Before(h)|, bl);
  }

  /** The last block is printed first, as it stands in the record, if it is clean. */
  lemma CleanStep(h: seq<Snapshot>, k: int)
    requires h != [] && Named(h[|h| - 1]) && LastClean(h) && k > 0
    ensures
      Log(LinesOf(RecordOf(h)), k) == Join(Block(h, |h|)) + (if k > 1 && |h| > 1 then [NEWLINE] else [])
                                      + Log(LinesOf(RecordOf(h[..|h| - 1])), k - 1)
  {
    hide LinesOf, LastHeader, IsHeader, RecordOf, LastLines, LastClean, Block, Join, TrimEnd, Named, Log, Before;
    var ls, bl, q := LinesOf(RecordOf(h)), LastLines(h), |Before(h)|;
    LinesOfRecord(h);
    LastHeaderPlace(h);
    LastLinesShape(h);
    LastLineFull(h);
    TrimNothing(bl);
    assert bl[0..] == bl;
    LogStep(ls, q, k);
    assert ls[..q] == Before(h);
    BeforeLog(h, k - 1);
  }

  lemma BeforeLog(h: seq<Snapshot>, k: int)
    requires h != []
    ensures Log(Before(h), k) == Log(LinesOf(RecordOf(h[..|h| - 1])), k) && (|Before(h)| > 0 <==> |h| > 1)
  {
    hide LinesOf, RecordOf, Log;
    if |h| > 1 {
      LogTrailing(LinesOf(RecordOf(h[..|h| - 1])), k);
    } else {
      NoRecord(h[..0], k);
    }
  }

  lemma NoRecord(h: seq<Snapshot>, k: int)
    requires h == []
    ensures Log(LinesOf(RecordOf(h)), k) == [] == Log([], k)
  {
  }

  /** If it is not clean, the log of the newest commit is shorter than its block. */
  lemma DirtyShorter(h: seq<Snapshot>)
    requires h != [] && !LastClean(h)
    ensures |Log(LinesOf(RecordOf(h)), 1)| < |Newest(h, 1)|
  {
    hide LinesOf, LastHeader, IsHeader, RecordOf, LastLines, LastClean, Block, Join, TrimEnd, Log, Newest, Before;
    LogOnce(LinesOf(RecordOf(h)));
    NewestOnce(h);
    LastHeaderPlace(h);
    LastLinesShape(h);
    SuffixShorter(LastLines(h), LastHeader(LastLines(h)));
  }

  lemma NewestOnce(h: seq<Snapshot>)
    requires h != []
    ensures Newest(h, 1) == Join(Block(h, |h|))
  {
    hide Block, Join;
    assert Newest(h[..|h| - 1], 0) == [];
  }

  /** One more commit is printed right exactly when its block is clean and the others are. */
  lemma PrintsOneMore(h: seq<Snapshot>)
    requires h != [] && Named(h[|h| - 1])
    ensures PrintsAll(h) <==> LastClean(h) && PrintsAll(h[..|h| - 1])
  {
    hide LinesOf, RecordOf, LastClean, Block, Join, Log, Newest, Named;
    var init := h[..|h| - 1];
    if !LastClean(h) {
      DirtyShorter(h);
    } else {
      forall k: int
        ensures Log(LinesOf(RecordOf(h)), k) == Newest(h, k) <==>
                k <= 0 || Log(LinesOf(RecordOf(init)), k - 1) == Newest(init, k - 1)
      {
        if k > 0 {
          CleanStep(h, k);
          NewestStep(h, k);
          Cancel(Join(Block(h, |h|)) + (if k > 1 && |h| > 1 then [NEWLINE] else []),
                 Log(LinesOf(RecordOf(init)), k - 1), Newest(init, k - 1));
        } else {
          NothingAsked(h, k);
        }
      }
      if PrintsAll(h) {
        forall k: int
          ensures Log(LinesOf(RecordOf(init)), k) == Newest(init, k)
        {
          if k >= 0 {
            assert Log(LinesOf(RecordOf(h)), k + 1) == Newest(h, k + 1);
          } else {
            NothingAsked(init, k);
          }
        }
      }
    }
  }

  lemma Cancel(front: Text, a: Text, b: Text)
    ensures front + a == front + b <==> a == b
  {
    assert (front + a)[|front|..] == a && (front + b)[|front|..] == b;
  }

  lemma NewestStep(h: seq<Snapshot>, k: int)
    requires h != [] && k > 0
    ensures Newest(h, k) ==
            Join(Block(h, |h|)) + (if k > 1 && |h| > 1 then [NEWLINE] else []) + Newest(h[..|h| - 1], k - 1)
  {
    hide Block, Join;
  }

  lemma NothingAsked(h: seq<Snapshot>, k: int)
    requires k <= 0
    ensures Log(LinesOf(RecordOf(h)), k) == [] == Newest(h, k)
  {
    hide LinesOf, RecordOf;
  }

  /** On the record of any history, log prints the last min(k, N) commits, newest first, for every
      k exactly when no line of any name is a header. */
  lemma {:induction false} LogIff(h: seq<Snapshot>)
    requires forall n :: 0 <= n < |h| ==> Named(h[n])
    ensures PrintsAll(h) <==> forall n :: 0 <= n < |h| ==> HeaderFree(h[n])
  {
    hide PrintsAll, Named, HeaderFree, LastClean;
    if h == [] {
      NothingPrinted(h);
    } else {
      var init := h[..|h| - 1];
      LogIff(init);
      PrintsOneMore(h);
      LastCleanIf(h);
      assert forall n :: 0 <= n < |init| ==> init[n] == h[n];
      assert |h| > 1 ==> Previous(h) == init[|init| - 1];
    }
  }

  lemma NothingPrinted(h: seq<Snapshot>)
    requires h == []
    ensures PrintsAll(h)
  {
    forall k: int
      ensures Log(LinesOf(RecordOf(h)), k) == Newest(h, k)
    {
      NoRecord(h, k);
    }
  }

  lemma LastCleanIf(h: seq<Snapshot>)
    requires h != [] && Named(h[|h| - 1])
    ensures (|h| > 1 ==> HeaderFree(Previous(h))) && HeaderFree(h[|h| - 1]) ==> LastClean(h)
    ensures LastClean(h) ==> HeaderFree(h[|h| - 1])
  {
    hide Named, Quiet, Tail;
    TailQuiet(Previous(h), h[|h| - 1]);
  }

  /** If every commit could be read back for the next one, only the last can have names that are no
      single words. Then the log is right for every k exactly when it is right for k = 1, and that is
      when no line of a name of the last commit is a header. */
  lemma NewestPrintedIff(h: seq<Snapshot>)
    requires h != [] && (forall n :: 0 <= n < |h| ==> Named(h[n])) && Legible(h)
    ensures Log(LinesOf(RecordOf(h)), 1) == Newest(h, 1) <==> HeaderFree(h[|h| - 1])
    ensures HeaderFree(h[|h| - 1]) <==> PrintsAll(h)
  {
    hide LinesOf, RecordOf, Log, Newest, Named, HeaderFree, LastClean, Words;
    forall n | 0 <= n < |h| - 1
      ensures HeaderFree(h[n])
    {
      WordsHeaderFree(h[n]);
    }
    LogIff(h);
    LastCleanIf(h);
    if !LastClean(h) {
      DirtyShorter(h);
    }
  }

  // ---- names that are headers -----------------------------------------------------------------------------

  /** A last file whose name ends in a header line: log 1 prints that line of its digest alone. */
  lemma HeaderPrinted(h: seq<Snapshot>, front: Text, l: Text)
    requires h != [] && h[|h| - 1] != [] && Named(h[|h| - 1])
    requires Ended(front) && IsLine(l) && IsHeader(l) && h[|h| - 1][|h[|h| - 1]| - 1].name == front + l
    ensures Log(LinesOf(RecordOf(h)), 1) == l + [SPACE] + h[|h| - 1][|h[|h| - 1]| - 1].sum + [NEWLINE]
    ensures Log(LinesOf(RecordOf(h)), 1) != Newest(h, 1)
  {
    hide LinesOf, IsHeader, RecordLines, Block, Join, TrimEnd, Log, Newest, Hex, LastHeader, SumLine;
    var s := h[|h| - 1];
    var e := s[|s| - 1];
    var before := RecordEnding(h);
    var line := l + [SPACE] + e.sum;
    HeaderDecided(l, [SPACE] + e.sum) by {
      HexBehind(e.sum);
    }
    assert line == l + ([SPACE] + e.sum);
    HexLine(e.sum);
    var text := Join(before) + front;
    JoinEnded(before);
    LinesOfAppend(text, line + [NEWLINE]);
    LinesOfOne(line);
    SumText(e, front, l);
    assert RecordOf(h) == text + (line + [NEWLINE]);
    var ls := LinesOf(RecordOf(h));
    assert ls == LinesOf(text) + [line];
    assert ls[|ls| - 1] == line;
    assert ls[|ls| - 1..] == [line];
    LogOnce(ls);
    TrimNothing([line]);
    assert Join([line]) == line + [NEWLINE] by {
      JoinNothing();
      JoinCons(line, []);
      assert [line] + [] == [line];
    }
    NameNotFree(s, front, l);
    LastCleanIf(h);
    DirtyShorter(h);
  }

  lemma SumText(e: Entry, front: Text, l: Text)
    requires e.name == front + l
    ensures SumLine(e) + [NEWLINE] == front + (l + [SPACE] + e.sum + [NEWLINE])
  {
  }

  lemma HexBehind(sum: Text)
    requires Hex(sum)
    ensures Behind([SPACE] + sum)
  {
  }

  lemma HexLine(sum: Text)
    requires Hex(sum)
    ensures IsLine(sum)
  {
  }

  /** A record ends in the line of its last file's digest. */
  lemma RecordEnding(h: seq<Snapshot>) returns (before: seq<Text>)
    requires h != [] && h[|h| - 1] != []
    ensures RecordOf(h) == Join(before) + (SumLine(h[|h| - 1][|h[|h| - 1]| - 1]) + [NEWLINE])
  {
    hide Join, SumLine, SectionLines;
    var lines := RecordLines(h);
    before := lines[..|lines| - 1];
    assert lines == before + [lines[|lines| - 1]];
    JoinSnoc(before, lines[|lines| - 1]);
  }

  lemma NameNotFree(s: Snapshot, front: Text, l: Text)
    requires s != [] && s[|s| - 1].name == front + l && Ended(front) && IsLine(l) && IsHeader(l)
    ensures !HeaderFree(s)
  {
    hide Quiet, IsHeader;
    QuietAppend(front, l + [NEWLINE]);
    QuietLine(l);
    assert front + l + [NEWLINE] == front + (l + [NEWLINE]);
  }

  /** Two such first commits: of one file "# commit x", and of one file whose name is "x" and
      "# commit 9" with a newline in between. */
  lemma HeaderNames()
    ensures
      var plain, late := Header() + [SPACE, 120], [120, NEWLINE] + (Header() + [SPACE, 57]);
      && Log(LinesOf(RecordOf([[Entry(plain, [48])]])), 1) == plain + [SPACE, 48, NEWLINE]
      && Log(LinesOf(RecordOf([[Entry(late, [48])]])), 1) == Header() + [SPACE, 57] + [SPACE, 48, NEWLINE]
      && Log(LinesOf(RecordOf([[Entry(plain, [48])]])), 1) != Newest([[Entry(plain, [48])]], 1)
      && Log(LinesOf(RecordOf([[Entry(late, [48])]])), 1) != Newest([[Entry(late, [48])]], 1)
  {
    hide RecordOf, Log, Newest, LinesOf;
    var plain, late := Header() + [SPACE, 120], [120, NEWLINE] + (Header() + [SPACE, 57]);
    assert plain[..8] == Header() && (Header() + [SPACE, 57])[..8] == Header();
    assert [] + plain == plain;
    HeaderPrinted([[Entry(plain, [48])]], [], plain);
    HeaderPrinted([[Entry(late, [48])]], [120, NEWLINE], Header() + [SPACE, 57]);
    assert plain + [SPACE] + [48] + [NEWLINE] == plain + [SPACE, 48, NEWLINE];
    var l := Header() + [SPACE, 57];
    assert l + [SPACE] + [48] + [NEWLINE] == l + [SPACE, 48, NEWLINE];
  }

  // ---- the backward scan ------------------------------------------------------------------------------------

  /** The text get_log gathers backwards for the lines behind a header. */
  function Gathered(ls: seq<Text>): Text {
    if ls == [] then []
    else
      var line := Gathered(ls[1..]) + Rev(ls[0]);
      if line == [] then [] else line + [NEWLINE]
  }

  lemma {:induction false} GatheredReads(ls: seq<Text>)
    ensures Rev(Gathered(ls)) + [NEWLINE] == [NEWLINE] + Join(TrimEnd(ls))
    ensures Gathered(ls) == [] <==> TrimEnd(ls) == []
  {
    hide Rev, Join;
    if ls == [] {
      EmptyJoin();
    } else {
      var rest, x := ls[1..], ls[0];
      GatheredReads(rest);
      var line := Gathered(rest) + Rev(x);
      if line == [] {
        RevInjective(x, []);
        EmptyJoin();
      } else {
        RevAppend(line, [NEWLINE]);
        RevAppend(Gathered(rest), Rev(x));
        RevRev(x);
        RevOne(NEWLINE);
        JoinCons(x, TrimEnd(rest));
        RevInjective(x, []);
        assert Rev(Gathered(ls)) == [NEWLINE] + (x + Rev(Gathered(rest)));
        assert Rev(Gathered(ls)) + [NEWLINE] == [NEWLINE] + (x + (Rev(Gathered(rest)) + [NEWLINE]));
        assert x + ([NEWLINE] + Join(TrimEnd(rest))) == x + [NEWLINE] + Join(TrimEnd(rest));
      }
    }
  }

  /** A header and what was gathered behind it, printed from back to front. */
  lemma StretchPrinted(header: Text, rest: seq<Text>)
    requires header != []
    ensures Rev(Gathered(rest) + Rev(header)) + [NEWLINE] == Join(TrimEnd([header] + rest))
  {
    hide Rev, Join, Gathered;
    GatheredReads(rest);
    RevAppend(Gathered(rest), Rev(header));
    RevRev(header);
    assert ([header] + rest)[1..] == rest;
    assert TrimEnd([header] + rest) == [header] + TrimEnd(rest);
    JoinCons(header, TrimEnd(rest));
    assert header + Rev(Gathered(rest)) + [NEWLINE] == header + (Rev(Gathered(rest)) + [NEWLINE]);
    assert header + ([NEWLINE] + Join(TrimEnd(rest))) == header + [NEWLINE] + Join(TrimEnd(rest));
  }

  /** A line has been read back to its start: it is gathered, or, if it is a header, everything
      gathered is printed. */
  method FinishLine(line: Text, tempLine: Text, numReq: int, filesize: nat, ghost x: Text, ghost rest: seq<Text>)
    returns (line': Text, out: Text, numReq': int)
    requires line == Gathered(rest) && tempLine == Rev(x) && numReq > 0
    ensures IsHeader(x) ==>
              && line' == [] && numReq' == numReq - 1
              && out == Join(TrimEnd([x] + rest)) + if numReq' != 0 && filesize != 0 then [NEWLINE] else []
    ensures !IsHeader(x) ==> line' == Gathered([x] + rest) && numReq' == numReq && out == []
  {
    hide Rev, Join, IsHeader, TrimEnd;
    numReq' := numReq;
    out := [];
    line' := line + tempLine;
    var turned := ReverseInPlace(tempLine);
    RevRev(x);
    if IsHeader(turned) {
      NotHash([]);
      StretchPrinted(x, rest);
      out := Rev(line');
      out := out + [NEWLINE];
      line' := [];
      numReq' := numReq' - 1;
      if numReq' != 0 && filesize != 0 {
        out := out + [NEWLINE];
      }
    }
    assert ([x] + rest)[1..] == rest;
    if line' != [] {
      line' := line' + [NEWLINE];
    }
  }

  /** get_log. */
  method GetLog(file: Text, numReq0: int, ghost ls: seq<Text>) returns (out: Text)
    requires AreLines(ls) && file == Join(ls) && |file| >= 2 && ls != [] && ls[0] != []
    ensures out == Log(ls, numReq0)
  {
    hide Join, Rev, Start, IsHeader, Log, Gathered, TrimEnd;
    var pos, filesize, numReq := |file| - 2, |file| - 1, numReq0;
    var line: Text, tempLine: Text := [], [];
    out := [];
    ghost var left: nat, k: nat, e: nat := |ls|, |ls[|ls| - 1]|, |ls|;
    StartEnd(ls);
    StartNext(ls, |ls| - 1);
    RevWhole(ls[|ls| - 1]);
    assert ls[|ls|..|ls|] == [] && ls[..|ls|] == ls;
    NothingGathered();
    while filesize != 0 && numReq > 0
      invariant left <= e <= |ls|
      invariant left > 0 ==>
                k <= |ls[left - 1]| && 0 < filesize == Start(ls, left - 1) + k && tempLine == Rev(ls[left - 1][k..])
      invariant left == 0 ==> filesize == 0
      invariant filesize != 0 ==> pos == filesize - 1
      invariant line == Gathered(ls[left..e])
      invariant forall i :: left <= i < e ==> !IsHeader(ls[i])
      invariant out + Log(ls[..e], numReq) == Log(ls, numReq0)
      decreases filesize
    {
      ghost var q: nat := left - 1;
      ByteBefore(ls, q, k);
      StartZero(ls, q, 0);
      filesize := filesize - 1;
      var temp := file[pos];
      pos := pos + 1;
      if k > 0 {
        StartZero(ls, q, k - 1);
        RevExtend(ls[q], k);
      } else {
        StartZero(ls, q - 1, |ls[q - 1]|);
      }
      if temp == NEWLINE || filesize == 0 {
        if filesize == 0 {
          tempLine := tempLine + [temp];
        }
        RevWhole(ls[q]);
        ghost var rest := ls[left..e];
        var text, printed, request := FinishLine(line, tempLine, numReq, filesize, ls[q], rest);
        assert ls[q..e] == [ls[q]] + rest;
        if IsHeader(ls[q]) {
          LogStep(ls[..e], q, numReq);
          assert ls[..e][q..] == ls[q..e] && ls[..e][..q] == ls[..q];
          assert out + (printed + Log(ls[..q], request)) == (out + printed) + Log(ls[..q], request);
          e := q;
          assert ls[q..e] == [];
          NothingGathered();
        } else {
          assert out + printed == out;
        }
        line, out, numReq, tempLine := text, out + printed, request, [];
        left := q;
        if left > 0 {
          k := |ls[q - 1]|;
          RevWhole(ls[q - 1]);
        }
      } else {
        tempLine := tempLine + [temp];
        k := k - 1;
      }
      pos := Back(pos);
    }
    NoMore(ls[..e], numReq, left);
  }

  lemma NothingGathered()
    ensures Gathered([]) == []
  {
  }

  lemma NoMore(ls: seq<Text>, k: int, left: nat)
    requires k <= 0 || (left == 0 && forall i :: left <= i < |ls| ==> !IsHeader(ls[i]))
    ensures Log(ls, k) == []
  {
    hide IsHeader;
  }
}
