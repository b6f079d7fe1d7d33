/** Reading the record back to front: a byte, and two steps back, until the last list of
    digests and the last header have been met. */
module CommitScan {
  import opened Bytes
  import opened CommitRecord
  import opened Decimal
  import opened Lines
  import opened RecordText
  import opened Wrappers

  /** lseek(fd, -2, SEEK_CUR), which fails before the start and then changes nothing. */
  function Back(pos: nat): nat {
    if pos >= 2 then pos - 2 else pos
  }

  lemma RevExtend(line: Text, k: nat)
    requires 0 < k <= |line|
    ensures Rev(line[k..]) + [line[k - 1]] == Rev(line[k - 1..])
  {
    assert line[k - 1..] == [line[k - 1]] + line[k..];
  }

  lemma RevWhole(line: Text)
    ensures Rev(line[|line|..]) == [] && Rev(line[0..]) == Rev(line)
  {
    assert line[0..] == line;
  }

  lemma RevInjective(a: Text, b: Text)
    ensures Rev(a) == Rev(b) <==> a == b
  {
    RevRev(a);
    RevRev(b);
  }

  /** Lines collected backwards: one more goes behind those already there. */
  lemma RevLinesExtend(ls: seq<Text>, q: nat)
    requires q < |ls|
    ensures Join(Rev(ls[q..])) == Join(Rev(ls[q + 1..])) + ls[q] + [NEWLINE]
  {
    assert ls[q..] == [ls[q]] + ls[q + 1..];
    JoinSnoc(Rev(ls[q + 1..]), ls[q]);
  }

  /** The first loop of collect_old_list: the lines behind the last "(MD5)", last line first. */
  method ScanSums(file: Text, ghost ls: seq<Text>, ghost md: nat)
    returns (line: Text, num: nat, tempLine: Text, pos: nat, filesize: nat)
    requires AreLines(ls) && file == Join(ls) && 0 < md < |ls| && ls[md] == Md5Title()
    requires forall i :: md < i < |ls| ==> ls[i] != Md5Title()
    requires |file| >= 2
    ensures line == Join(Rev(ls[md + 1..])) && num == |ls| - md - 1 && tempLine == Rev(Md5Title())
    ensures pos == filesize + 1 && filesize + 1 == Start(ls, md)
  {
    hide Join, Rev, Start, Md5Title;
    pos := |file| - 2;
    filesize := pos + 1;
    num, line, tempLine := 0, [], [];
    ghost var q: nat, k: nat := |ls| - 1, |ls[|ls| - 1]|;
    StartEnd(ls);
    StartNext(ls, q);
    RevWhole(ls[q]);
    assert ls[q + 1..] == [];
    EmptyJoin();
    while filesize != 0
      invariant md <= q < |ls| && k <= |ls[q]| && filesize == Start(ls, q) + k
      invariant filesize != 0 ==> pos == filesize - 1
      invariant tempLine == Rev(ls[q][k..])
      invariant line == Join(Rev(ls[q + 1..])) && num == |ls| - 1 - q
      decreases filesize
    {
      ByteBefore(ls, q, k);
      filesize := filesize - 1;
      var temp := file[pos];
      pos := pos + 1;
      if temp == NEWLINE {
        assert k == 0;
        RevWhole(ls[q]);
        RevInjective(ls[q], Md5Title());
        if tempLine == Rev(Md5Title()) {
          assert q == md;
          return;
        }
        tempLine := ReverseInPlace(tempLine);
        RevRev(ls[q]);
        RevLinesExtend(ls, q);
        line := line + tempLine + [NEWLINE];
        num := num + 1;
        tempLine := [];
        q := q - 1;
        k := |ls[q]|;
        RevWhole(ls[q]);
      } else {
        RevExtend(ls[q], k);
        tempLine := tempLine + [temp];
        k := k - 1;
      }
      pos := Back(pos);
    }
    StartsAfterFirst(ls, q);
    assert false;
  }

  lemma EmptyJoin()
    ensures Join([]) == [] && Join(Rev<Text>([])) == []
  {
  }

  lemma StartsAfterFirst(ls: seq<Text>, q: nat)
    requires 0 < q < |ls|
    ensures Start(ls, q) > 0
  {
    StartNext(ls, q - 1);
  }

  /** "(MD5)" glued to a header does not change the number in it. */
  lemma NumberGlued(l: Text)
    requires IsHeader(l)
    ensures NumberOf(l + Md5Title()) == NumberOf(l)
  {
    hide NatValue, DigitRun;
    var rest := l[|Header()|..];
    assert (l + Md5Title())[|Header()|..] == rest + Md5Title();
    var digits := if rest != [] && rest[0] == SPACE then rest[1..] else rest;
    var glued := digits + Md5Title();
    assert glued == if rest != [] && rest[0] == SPACE then (rest + Md5Title())[1..] else rest + Md5Title();
    var n := DigitRun(digits);
    DigitRunExact(digits[..n], digits[n..] + Md5Title());
    assert digits[..n] + (digits[n..] + Md5Title()) == glued;
    assert glued[..n] == digits[..n];
  }

  /** The second loop: the number in the nearest header before the list. What is left of the
      first loop garbles the line it starts with, and neither hides a header nor makes one. */
  method ScanHeader(file: Text, tempLine0: Text, pos0: nat, filesize0: nat, ghost ls: seq<Text>, ghost md: nat)
    returns (number: int)
    requires AreLines(ls) && file == Join(ls) && 1 < md < |ls| && IsHeader(ls[0])
    requires tempLine0 == Rev(Md5Title()) && pos0 == filesize0 + 1 && filesize0 + 1 == Start(ls, md)
    ensures LastHeader(ls[..md]) >= 0 && number == NumberOf(ls[LastHeader(ls[..md])])
  {
    hide Join, Rev, Start, Md5Title, IsHeader, NumberOf;
    NotHash([]);
    ghost var h: nat := LastHeader(ls[..md]);
    var pos, filesize, tempLine := Back(pos0), filesize0, tempLine0;
    ghost var q: nat, k: nat := md - 1, |ls[md - 1]|;
    ghost var glued := Md5Title();
    ByteBefore(ls, md, 0);
    RevWhole(ls[q]);
    StartZero(ls, q, k);
    while filesize != 0
      invariant h <= q < md && k <= |ls[q]| && 0 < filesize == Start(ls, q) + k
      invariant pos == filesize - 1
      invariant glued == if q == md - 1 then Md5Title() else []
      invariant tempLine == Rev(glued) + Rev(ls[q][k..])
      decreases filesize
    {
      ByteBefore(ls, q, k);
      StartZero(ls, q, 0);
      filesize := filesize - 1;
      var temp := file[pos];
      pos := pos + 1;
      if k > 0 {
        StartZero(ls, q, k - 1);
        RevExtend(ls[q], k);
      } else {
        StartZero(ls, q - 1, |ls[q - 1]|);
      }
      if temp == NEWLINE || filesize == 0 {
        if filesize == 0 {
          tempLine := tempLine + [temp];
        }
        assert tempLine == Rev(glued) + Rev(ls[q]) by {
          RevWhole(ls[q]);
        }
        tempLine := ReverseInPlace(tempLine);
        RevAppend(ls[q], glued);
        RevRev(ls[q] + glued);
        GluedHeader(ls[q], glued);
        assert ls[q] == ls[..md][q];
        if IsHeader(tempLine) {
          return NumberOf(tempLine);
        }
        tempLine := [];
        q := q - 1;
        k := |ls[q]|;
        glued := [];
        RevWhole(ls[q]);
      } else {
        tempLine := tempLine + [temp];
        k := k - 1;
      }
      pos := Back(pos);
    }
    assert false;
  }

  lemma GluedHeader(l: Text, glued: Text)
    requires glued == Md5Title() || glued == []
    ensures IsHeader(l + glued) <==> IsHeader(l)
    ensures IsHeader(l) ==> NumberOf(l + glued) == NumberOf(l)
  {
    hide IsHeader, NumberOf;
    if glued == [] {
      assert l + glued == l;
    } else {
      HeaderDecided(l, glued);
      if IsHeader(l) {
        NumberGlued(l);
      }
    }
  }

  lemma StartZero(ls: seq<Text>, q: nat, k: nat)
    requires q < |ls| && k <= |ls[q]| && ls[0] != []
    ensures Start(ls, q) + k == 0 ==> q == 0 && k == 0
    ensures q == 0 ==> Start(ls, q) == 0
  {
    if q > 0 {
      StartsAfterFirst(ls, q);
    }
  }

  // ---- splitting the collected lines ---------------------------------------------------------

  predicate Delimiter(b: byte) {
    b == SPACE || b == NEWLINE
  }

  /** strtok with " \n": the next token and what is left behind the delimiter after it; an
      empty token means that there is none. */
  function Strtok(s: Text): (r: (Text, Text))
    ensures |r.1| <= |s| && (r.0 != [] ==> |r.1| < |s|)
  {
    if s == [] then ([], [])
    else if Delimiter(s[0]) then Strtok(s[1..])
    else
      var n := WordLength(s);
      (s[..n], if n == |s| then [] else s[n + 1..])
  }

  function WordLength(s: Text): (n: nat)
    ensures n <= |s| && (s != [] && !Delimiter(s[0]) ==> n > 0)
  {
    if s == [] || Delimiter(s[0]) then 0 else 1 + WordLength(s[1..])
  }

  lemma {:induction false} WordLengthExact(w: Text, d: byte, rest: Text)
    requires Delimiter(d) && forall i :: 0 <= i < |w| ==> !Delimiter(w[i])
    ensures WordLength(w + [d] + rest) == |w|
  {
    if w != [] {
      assert (w + [d] + rest)[1..] == w[1..] + [d] + rest;
      WordLengthExact(w[1..], d, rest);
    }
  }

  lemma StrtokWord(w: Text, d: byte, rest: Text)
    requires Delimiter(d) && Word(w)
    ensures Strtok(w + [d] + rest) == (w, rest)
  {
    WordLengthExact(w, d, rest);
    var s := w + [d] + rest;
    assert s[..|w|] == w && s[|w| + 1..] == rest;
  }

  lemma {:induction false} WordLengthWord(s: Text)
    ensures forall i :: 0 <= i < WordLength(s) ==> !Delimiter(s[i])
  {
    if s != [] && !Delimiter(s[0]) {
      WordLengthWord(s[1..]);
    }
  }

  lemma {:induction false} TokenIsWord(s: Text)
    ensures Strtok(s).0 == [] || Word(Strtok(s).0)
  {
    if s != [] {
      if Delimiter(s[0]) {
        TokenIsWord(s[1..]);
      } else {
        WordLengthWord(s);
      }
    }
  }

  /** All tokens of a text, in order. */
  function Tokens(s: Text): seq<Text>
    decreases |s|
  {
    var (token, rest) := Strtok(s);
    if token == [] then [] else [token] + Tokens(rest)
  }

  lemma {:induction false} TokensAreWords(s: Text, k: nat)
    requires k < |Tokens(s)|
    ensures Word(Tokens(s)[k])
    decreases |s|
  {
    hide Strtok, Word;
    TokenIsWord(s);
    if k > 0 {
      TokensAreWords(Strtok(s).1, k - 1);
    }
  }

  lemma HexIsWord(t: Text)
    requires Hex(t)
    ensures Word(t)
  {
  }

  /** Names and digests, last file first. */
  function PairTokens(s: Snapshot): (r: seq<Text>)
    ensures |r| == 2 * |s|
  {
    if s == [] then [] else [s[|s| - 1].name, s[|s| - 1].sum] + PairTokens(s[..|s| - 1])
  }

  lemma {:induction false} PairTokenAt(s: Snapshot, i: nat)
    requires i < |s|
    ensures PairTokens(s)[2 * (|s| - 1 - i)] == s[i].name && PairTokens(s)[2 * (|s| - 1 - i) + 1] == s[i].sum
  {
    if i < |s| - 1 {
      PairTokenAt(s[..|s| - 1], i);
    }
  }

  lemma StrtokNothing()
    ensures Strtok([]).0 == []
  {
  }

  lemma {:induction false} WordsRead(s: Snapshot)
    requires Named(s) && Words(s)
    ensures Tokens(Join(Rev(SumLines(s)))) == PairTokens(s)
  {
    hide Strtok, Join, Rev, Word, Hex;
    if s == [] {
      assert SumLines(s) == [];
      EmptyJoin();
      StrtokNothing();
    } else {
      var e, init := s[|s| - 1], s[..|s| - 1];
      assert SumLines(s) == SumLines(init) + [SumLine(e)];
      RevAppend(SumLines(init), [SumLine(e)]);
      RevOne(SumLine(e));
      JoinCons(SumLine(e), Rev(SumLines(init)));
      var tail := Join(Rev(SumLines(init)));
      HexIsWord(e.sum);
      assert Word(e.name);
      TokensPair(e, tail, Join(Rev(SumLines(s))));
      WordsRead(init);
    }
  }

  lemma TokensPair(e: Entry, tail: Text, text: Text)
    requires Word(e.name) && Word(e.sum) && text == SumLine(e) + [NEWLINE] + tail
    ensures Tokens(text) == [e.name, e.sum] + Tokens(tail)
  {
    hide Strtok;
    var rest := e.sum + [NEWLINE] + tail;
    assert text == e.name + [SPACE] + rest;
    StrtokWord(e.name, SPACE, rest);
    StrtokWord(e.sum, NEWLINE, tail);
    assert Tokens(text) == [e.name] + Tokens(rest);
    assert Tokens(rest) == [e.sum] + Tokens(tail);
  }

  /** The tokens of the collected lines are the recorded pairs exactly when every name is one
      word. */
  lemma PairsReadBackIff(s: Snapshot)
    requires Named(s)
    ensures Tokens(Join(Rev(SumLines(s)))) == PairTokens(s) <==> Words(s)
  {
    hide Tokens, Join, Rev, Word, SumLines, PairTokens;
    if Words(s) {
      WordsRead(s);
    }
    var tokens := Tokens(Join(Rev(SumLines(s))));
    if tokens == PairTokens(s) {
      forall i | 0 <= i < |s|
        ensures Word(s[i].name)
      {
        PairTokenAt(s, i);
        TokensAreWords(Join(Rev(SumLines(s))), 2 * (|s| - 1 - i));
      }
    }
  }

  /** A blank in one name spoils the others: of the files "c" and "d e" five tokens are read,
      and the clean name "c" ends up before the first place of the list. */
  lemma BlankSpoilsOthers()
    ensures
      var s := [Entry([99], [49]), Entry([100, SPACE, 101], [50])];
      && Named(s) && Word(s[0].name) && !Word(s[1].name)
      && Tokens(Join(Rev(SumLines(s)))) == [[100], [101], [50], [99], [49]]
  {
    hide Strtok, Join, Rev;
    var c, d := Entry([99], [49]), Entry([100, SPACE, 101], [50]);
    var s := [c, d];
    assert SumLines(s) == [SumLine(c)] + [SumLine(d)];
    RevAppend([SumLine(c)], [SumLine(d)]);
    RevOne(SumLine(c));
    RevOne(SumLine(d));
    JoinCons(SumLine(d), [SumLine(c)]);
    JoinCons(SumLine(c), []);
    JoinNothing();
    assert [SumLine(c)] + [] == [SumLine(c)];
    assert d.name[1] == SPACE;
    var t1 := SumLine(c) + [NEWLINE];
    var t2 := [101, SPACE, 50, NEWLINE] + t1;
    var text := SumLine(d) + [NEWLINE] + t1;
    assert text == [100] + [SPACE] + t2;
    StrtokWord([100], SPACE, t2);
    assert Tokens(text) == [[100]] + Tokens(t2);
    TokensPair(Entry([101], [50]), t1, t2);
    assert t1 == SumLine(c) + [NEWLINE] + [];
    TokensPair(c, [], t1);
    StrtokNothing();
  }

  lemma RevOne<T>(x: T)
    ensures Rev([x]) == [x]
  {
  }

  /** The files a text of (name, digest) lines is read as, if num of them are expected: the
      tokens stand in pairs from the last place down, and the places left are unset. A token left
      for a place before the first one, or a name without a digest, is a fault. */
  function ReadBack(tokens: seq<Text>, num: nat): Option<Snapshot> {
    if |tokens| % 2 == 1 || |tokens| > 2 * num then None
    else Some(Stored(tokens, num, |tokens| / 2))
  }

  function Stored(tokens: seq<Text>, num: nat, pairs: nat): (s: Snapshot)
    requires 2 * pairs <= |tokens|
    ensures |s| == num
  {
    seq(num, i requires 0 <= i < num =>
        var k := num - 1 - i;
        if k < pairs then Entry(tokens[2 * k], tokens[2 * k + 1]) else Entry([], []))
  }

  /** The lists hold exactly the files of s, in their order. */
  predicate Holds(list: seq<Text>, md5: seq<Text>, s: Snapshot) {
    |list| == |md5| == |s| && forall i :: 0 <= i < |s| ==> list[i] == s[i].name && md5[i] == s[i].sum
  }

  /** The pairs of a snapshot are read back as that snapshot. */
  lemma PairsStored(s: Snapshot)
    ensures ReadBack(PairTokens(s), |s|) == Some(s)
  {
    hide PairTokens;
    var read := ReadBack(PairTokens(s), |s|).value;
    forall i | 0 <= i < |s|
      ensures read[i] == s[i]
    {
      PairTokenAt(s, i);
    }
    assert read == s;
  }

  /** Whatever is read back was a token. */
  lemma StoredAreWords(line: Text, s: Snapshot)
    requires Named(s) && ReadBack(Tokens(line), |s|) == Some(s)
    ensures Words(s)
  {
    hide Tokens, Word, Hex;
    forall i | 0 <= i < |s|
      ensures Word(s[i].name)
    {
      assert s[i] == Stored(Tokens(line), |s|, |Tokens(line)| / 2)[i];
      assert |s| - 1 - i < |Tokens(line)| / 2;
      TokensAreWords(line, 2 * (|s| - 1 - i));
    }
  }

  lemma NothingStored(tokens: seq<Text>, num: nat)
    ensures Holds(seq(num, _ => []), seq(num, _ => []), Stored(tokens, num, 0))
  {
  }

  lemma StoreOne(list: seq<Text>, md5: seq<Text>, tokens: seq<Text>, num: nat, p: nat)
    requires p < num && 2 * (p + 1) <= |tokens| && Holds(list, md5, Stored(tokens, num, p))
    ensures
      var at := num - 1 - p;
      Holds(list[at := tokens[2 * p]], md5[at := tokens[2 * p + 1]], Stored(tokens, num, p + 1))
  {
  }

  /** The loop over the tokens: the pairs are stored from the last place to the first. */
  method FillPairs(line: Text, num: nat) returns (fault: bool, list: seq<Text>, md5: seq<Text>)
    ensures fault <==> ReadBack(Tokens(line), num).None?
    ensures !fault ==> Holds(list, md5, ReadBack(Tokens(line), num).value)
  {
    hide Strtok, Stored, Holds;
    ghost var tokens := Tokens(line);
    NothingStored(tokens, num);
    list, md5 := seq(num, _ => []), seq(num, _ => []);
    var (tok, rest) := Strtok(line);
    ghost var left := line;
    var i := 1;
    while tok != []
      invariant 1 <= i <= num + 1 && |list| == |md5| == num && 2 * (i - 1) <= |tokens|
      invariant (tok, rest) == Strtok(left) && Tokens(left) == tokens[2 * (i - 1)..]
      invariant Holds(list, md5, Stored(tokens, num, i - 1))
      decreases |left|
    {
      assert Tokens(left) == [tok] + Tokens(rest);
      if i > num {
        return true, list, md5;
      }
      ghost var before := list;
      list := list[num - i := tok];
      var (second, rest2) := Strtok(rest);
      if second == [] {
        return true, list, md5;
      }
      assert Tokens(rest) == [second] + Tokens(rest2);
      assert tokens[2 * (i - 1)..][0] == tok && tokens[2 * (i - 1)..][1] == second;
      StoreOne(before, md5, tokens, num, i - 1);
      md5 := md5[num - i := second];
      left := rest2;
      var (next, rest3) := Strtok(rest2);
      tok, rest := next, rest3;
      i := i + 1;
    }
    fault := false;
  }
}
