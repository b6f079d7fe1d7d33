/** The commit record: what one commit writes, and the file a history of commits leaves. */
module CommitRecord {
  import opened Bytes
  import opened Decimal
  import opened Lines
  import opened Wrappers

  /** A file of the directory: its name and its MD5 digest in hexadecimal. */
  datatype Entry = Entry(name: Text, sum: Text)

  type Snapshot = seq<Entry>

  /** A name the scanner does not split: it holds no blank and no newline. */
  predicate Word(t: Text) {
    t != [] && forall i :: 0 <= i < |t| ==> t[i] != SPACE && t[i] != NEWLINE
  }

  predicate Hex(t: Text) {
    t != [] && forall i :: 0 <= i < |t| ==> 48 <= t[i] <= 57 || 97 <= t[i] <= 102
  }

  // ---- the lines of a record -----------------------------------------------------------------

  /** "# commit" */
  function Header(): Text { [35, 32, 99, 111, 109, 109, 105, 116] }

  /** "[new_file]", "[modified]", "[copied]" and "(MD5)" */
  function NewTitle(): Text { [91, 110, 101, 119, 95, 102, 105, 108, 101, 93] }

  function ModifiedTitle(): Text { [91, 109, 111, 100, 105, 102, 105, 101, 100, 93] }

  function CopiedTitle(): Text { [91, 99, 111, 112, 105, 101, 100, 93] }

  function Md5Title(): Text { [40, 77, 68, 53, 41] }

  function Arrow(): Text { [32, 61, 62, 32] }

  predicate IsHeader(line: Text) {
    StartsWith(line, Header())
  }

  /** Files as the record can name them at all: some name, and a digest. */
  predicate Named(s: Snapshot) {
    forall i :: 0 <= i < |s| ==> s[i].name != [] && Hex(s[i].sum)
  }

  /** A directory: every file has a name of its own. */
  predicate Directory(s: Snapshot) {
    Named(s) && forall i, j :: 0 <= i < j < |s| ==> s[i].name != s[j].name
  }

  /** Every name is a single word. */
  predicate Words(s: Snapshot) {
    forall i :: 0 <= i < |s| ==> Word(s[i].name)
  }

  function HeaderLine(n: nat): Text {
    Header() + [SPACE] + Digits(n)
  }

  /** sscanf with "# commit %d" on a line that begins so. */
  function NumberOf(line: Text): nat {
    if |line| < |Header()| then 0
    else
      var rest := line[|Header()|..];
      var digits := if rest != [] && rest[0] == SPACE then rest[1..] else rest;
      NatValue(digits[..DigitRun(digits)])
  }

  lemma NumberRead(n: nat)
    ensures NumberOf(HeaderLine(n)) == n && IsHeader(HeaderLine(n))
  {
    var line := HeaderLine(n);
    var digits := Digits(n);
    assert line[|Header()|..] == [SPACE] + digits;
    assert ([SPACE] + digits)[1..] == digits;
    DigitRunExact(digits, []);
    assert digits + [] == digits && digits[..|digits|] == digits;
    DigitsRoundTrip(n);
    assert line[..|Header()|] == Header();
  }

  function SumLine(e: Entry): Text {
    e.name + [SPACE] + e.sum
  }

  function SumLines(s: Snapshot): (r: seq<Text>)
    ensures |r| == |s| && forall i :: 0 <= i < |s| ==> r[i] == SumLine(s[i])
  {
    seq(|s|, i requires 0 <= i < |s| => SumLine(s[i]))
  }

  // ---- what has changed ------------------------------------------------------------------------

  datatype Change = Created | Modified | CopyOf(source: Text) | Same

  /** The first file of that name, or -1. */
  function NameIndex(s: Snapshot, name: Text, from: nat := 0): (j: int)
    requires from <= |s|
    ensures -1 <= j < |s|
    ensures j >= 0 ==> from <= j && s[j].name == name
    ensures forall k :: from <= k < (if j < 0 then |s| else j) ==> s[k].name != name
    decreases |s| - from
  {
    if from == |s| then -1 else if s[from].name == name then from else NameIndex(s, name, from + 1)
  }

  /** The first file of that digest, or -1. */
  function SumIndex(s: Snapshot, sum: Text, from: nat := 0): (j: int)
    requires from <= |s|
    ensures -1 <= j < |s|
    ensures j >= 0 ==> from <= j && s[j].sum == sum
    ensures forall k :: from <= k < (if j < 0 then |s| else j) ==> s[k].sum != sum
    decreases |s| - from
  {
    if from == |s| then -1 else if s[from].sum == sum then from else SumIndex(s, sum, from + 1)
  }

  /** A file is modified or the same if its name was there; otherwise it is a copy of the first
      file with its digest, or new. */
  function Classify(prev: Snapshot, e: Entry): Change {
    var j := NameIndex(prev, e.name);
    if j >= 0 then if prev[j].sum == e.sum then Same else Modified
    else
      var k := SumIndex(prev, e.sum);
      if k >= 0 then CopyOf(prev[k].name) else Created
  }

  function NewLines(prev: Snapshot, cur: Snapshot): seq<Text> {
    if cur == [] then []
    else
      var e := cur[|cur| - 1];
      NewLines(prev, cur[..|cur| - 1]) + if Classify(prev, e) == Created then [e.name] else []
  }

  function ModifiedLines(prev: Snapshot, cur: Snapshot): seq<Text> {
    if cur == [] then []
    else
      var e := cur[|cur| - 1];
      ModifiedLines(prev, cur[..|cur| - 1]) + if Classify(prev, e) == Modified then [e.name] else []
  }

  function CopiedLines(prev: Snapshot, cur: Snapshot): seq<Text> {
    if cur == [] then []
    else
      var e := cur[|cur| - 1];
      var c := Classify(prev, e);
      CopiedLines(prev, cur[..|cur| - 1]) + if c.CopyOf? then [c.source + Arrow() + e.name] else []
  }

  predicate Changed(prev: Snapshot, cur: Snapshot) {
    NewLines(prev, cur) != [] || ModifiedLines(prev, cur) != [] || CopiedLines(prev, cur) != []
  }

  lemma {:induction false} ChangedSome(prev: Snapshot, cur: Snapshot)
    ensures Changed(prev, cur) <==> exists i :: 0 <= i < |cur| && Classify(prev, cur[i]) != Same
  {
    hide Classify;
    if cur != [] {
      var init := cur[..|cur| - 1];
      ChangedSome(prev, init);
      assert Changed(prev, cur) <==> Changed(prev, init) || Classify(prev, cur[|cur| - 1]) != Same;
      assert forall i :: 0 <= i < |init| ==> init[i] == cur[i];
    }
  }

  /** Every file of cur, with its digest, is in s. */
  predicate Covers(s: Snapshot, cur: Snapshot) {
    forall i :: 0 <= i < |cur| ==> cur[i] in s
  }

  /** A commit has something to record exactly when some file, with its digest, was not in the
      snapshot before. Deleting files alone is never recorded. */
  lemma ChangedIff(prev: Snapshot, cur: Snapshot)
    requires Directory(prev)
    ensures Changed(prev, cur) <==> !Covers(prev, cur)
  {
    ChangedSome(prev, cur);
    forall i | 0 <= i < |cur|
      ensures Classify(prev, cur[i]) == Same <==> cur[i] in prev
    {
      var j := NameIndex(prev, cur[i].name);
      if j >= 0 && prev[j].sum == cur[i].sum {
        assert prev[j] == cur[i];
      }
    }
  }

  // ---- the record of a history -----------------------------------------------------------------

  /** The sections of a commit, between its header and its digests. */
  function SectionLines(prev: Snapshot, cur: Snapshot): seq<Text> {
    [NewTitle()] + NewLines(prev, cur) + [ModifiedTitle()] + ModifiedLines(prev, cur) + [CopiedTitle()]
    + CopiedLines(prev, cur)
  }

  function BlockLines(n: nat, prev: Snapshot, cur: Snapshot): seq<Text> {
    [HeaderLine(n)] + SectionLines(prev, cur) + ([Md5Title()] + SumLines(cur))
  }

  /** The lines of the n-th commit of the history. */
  function Block(h: seq<Snapshot>, n: nat): seq<Text>
    requires 0 < n <= |h|
  {
    BlockLines(n, if n == 1 then [] else h[n - 2], h[n - 1])
  }

  /** Blocks 1 to |h|, with an empty line between two of them. */
  function RecordLines(h: seq<Snapshot>): seq<Text> {
    if h == [] then []
    else if |h| == 1 then Block(h, 1)
    else RecordLines(h[..|h| - 1]) + [[]] + Block(h, |h|)
  }

  function RecordOf(h: seq<Snapshot>): Text {
    Join(RecordLines(h))
  }

  /** The history after one more commit of the directory. */
  function Extend(h: seq<Snapshot>, cur: Snapshot): seq<Snapshot> {
    if h == [] then (if cur == [] then [] else [cur])
    else if Changed(h[|h| - 1], cur) then h + [cur]
    else h
  }

  function History(snapshots: seq<Snapshot>): seq<Snapshot> {
    if snapshots == [] then [] else Extend(History(snapshots[..|snapshots| - 1]), snapshots[|snapshots| - 1])
  }

  /** The record file of a history; there is none before the first commit. */
  function RecordFor(h: seq<Snapshot>): Option<Text> {
    if h == [] then None else Some(RecordOf(h))
  }

  /** A history of commits that each had something to record. */
  predicate Recorded(h: seq<Snapshot>) {
    && (forall n :: 0 <= n < |h| ==> Directory(h[n]) && h[n] != [])
    && forall n :: 1 <= n < |h| ==> Changed(h[n - 1], h[n])
  }

  /** Only the last commit may have names that are no single words. */
  predicate Legible(h: seq<Snapshot>) {
    forall n :: 0 <= n < |h| - 1 ==> Words(h[n])
  }

  lemma ExtendRecorded(h: seq<Snapshot>, cur: Snapshot)
    requires Recorded(h) && Directory(cur)
    ensures Recorded(Extend(h, cur))
  {
    hide Directory, Changed;
    NoFilesNoChange(if h == [] then [] else h[|h| - 1]);
  }

  lemma NoFilesNoChange(prev: Snapshot)
    ensures !Changed(prev, [])
  {
  }

  /** Over every run of commits: no commit is recorded empty, every recorded commit brought some
      file its predecessor did not have, and the last one recorded already has every file of the
      last snapshot. */
  lemma {:induction false} HistoryRecorded(snapshots: seq<Snapshot>)
    requires forall i :: 0 <= i < |snapshots| ==> Directory(snapshots[i])
    ensures var h := History(snapshots);
            && Recorded(h)
            && (forall n :: 0 <= n < |h| ==> h[n] in snapshots)
            && (snapshots != [] && h == [] ==> snapshots[|snapshots| - 1] == [])
            && (snapshots != [] && h != [] ==> Covers(h[|h| - 1], snapshots[|snapshots| - 1]))
  {
    hide Changed, Directory;
    if snapshots != [] {
      var last := snapshots[|snapshots| - 1];
      HistoryRecorded(snapshots[..|snapshots| - 1]);
      var h := History(snapshots[..|snapshots| - 1]);
      ExtendRecorded(h, last);
      if h != [] {
        ChangedIff(h[|h| - 1], last);
      }
    }
  }
}
