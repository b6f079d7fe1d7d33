/** The commit tool on one directory: its record, and the three commands on it. */
module CommitLog {
  import opened Bytes
  import opened CommitRecord
  import opened CommitScan
  import opened CommitSections
  import opened Commits
  import opened Lines
  import opened RecordLog
  import opened RecordText
  import opened Wrappers

  /** The directory's record. */
  class Repository {
    var record: Option<Text>
    /** The commits there should be in it. */
    ghost var history: seq<Snapshot>

    /** The record is one the commands can work on. */
    ghost predicate Valid()
      reads this
    {
      record.Some? ==> Written(record.value)
    }

    /** It is the record of the history, and that could be read back for each commit so far. */
    ghost predicate Faithful()
      reads this
    {
      Recorded(history) && Legible(history) && record == RecordFor(history)
    }

    /** The names of the last commit are single words: only then can they be read back. */
    ghost predicate LastWords()
      reads this
    {
      history == [] || Words(history[|history| - 1])
    }

    constructor ()
      ensures Valid() && Faithful() && history == [] && record == None
    {
      record := None;
      history := [];
    }

    /** commit. */
    method CommitAll(cur: Snapshot) returns (fault: bool)
      requires Valid()
      modifies this
      ensures Valid() && record == CommitTo(old(record), cur) && history == Extend(old(history), cur)
      ensures fault ==> record == old(record)
      ensures old(Faithful() && LastWords()) && Directory(cur) ==> !fault && Faithful()
    {
      hide RecordFor, Written, CommitTo, AfterCommit, Extend, Recorded, Legible, Directory, Words;
      ghost var h := history;
      if Faithful() && LastWords() && Directory(cur) {
        CommitFollows(record, h, cur);
      }
      CommitKeeps(record, cur);
      fault, record := Commit(record, cur);
      history := Extend(history, cur);
    }

    /** status: against a missing record every file is new. */
    method Status(cur: Snapshot) returns (fault: bool, newFile: Text, modified: Text, copied: Text)
      requires Valid()
      ensures fault <==> record.Some? && OldList(record.value).None?
      ensures !fault ==>
                var prev := if record.None? then [] else OldList(record.value).value;
                && newFile == Join(NewLines(prev, cur)) && modified == Join(ModifiedLines(prev, cur))
                && copied == Join(CopiedLines(prev, cur))
                && StatusSays(prev, cur, newFile, modified, copied)
      ensures Faithful() && LastWords() && record.Some? ==> OldList(record.value) == Some(history[|history| - 1])
    {
      hide Join, Written, OldList, OldNumber, Recorded, Legible, Words, RecordOf, StatusSays;
      if Faithful() && LastWords() && record.Some? {
        RecordedNamed(history);
        OldListIff(history);
      }
      fault, newFile, modified, copied := false, [], [], [];
      var list: seq<Text>, md5: seq<Text>, number := [], [], 0;
      if record.Some? {
        fault, list, md5, number := CollectOldList(record.value, false);
      }
      if !fault {
        var sums;
        newFile, modified, copied, sums :=
          CurrentStatus(list, md5, cur, if record.None? then [] else OldList(record.value).value);
      }
    }

    /** log: of a faithful record whose last names hold no header, the last min(k, N) commits,
        newest first. */
    method PrintLog(k: int) returns (out: Text)
      requires Valid()
      ensures out == if record.None? then [] else Log(LinesOf(record.value), k)
      ensures Faithful() && (history == [] || HeaderFree(history[|history| - 1])) ==> out == Newest(history, k)
    {
      hide LinesOf, Log, Recorded, Legible, HeaderFree, RecordOf, IsHeader, Md5Title;
      if record.None? {
        return [];
      }
      JoinLinesOf(record.value);
      NotHash([]);
      out := GetLog(record.value, k, LinesOf(record.value));
      if Faithful() && HeaderFree(history[|history| - 1]) {
        RecordedNamed(history);
        NewestPrintedIff(history);
      }
    }
  }

  lemma RecordedNamed(h: seq<Snapshot>)
    requires Recorded(h)
    ensures forall n :: 0 <= n < |h| ==> Named(h[n])
  {
  }

  /** A record that follows its history so far follows one more commit. */
  lemma CommitFollows(record: Option<Text>, h: seq<Snapshot>, cur: Snapshot)
    requires record.Some? ==> Written(record.value)
    requires Recorded(h) && Legible(h) && record == RecordFor(h)
    requires (h == [] || Words(h[|h| - 1])) && Directory(cur)
    ensures Recorded(Extend(h, cur)) && Legible(Extend(h, cur)) && CommitTo(record, cur) == RecordFor(Extend(h, cur))
    ensures record.Some? ==> AfterCommit(record.value, cur).Some?
  {
    hide Extend, RecordOf, Written, AfterCommit, CommitTo, Recorded, Directory, Words;
    ExtendRecorded(h, cur);
    ExtendLegible(h, cur);
    LegibleReadable(h);
    CommitExtends(h, cur);
  }

  /** Any sequence of commits of any directory states. */
  method CommitEach(snapshots: seq<Snapshot>) returns (record: Option<Text>)
    ensures record == RecordAfter(snapshots)
    ensures Sound(snapshots) ==> record == RecordFor(History(snapshots))
  {
    hide CommitTo, RecordFor, History, Extend, Directory, Words, Written;
    var r := new Repository();
    var i := 0;
    assert snapshots[..0] == [];
    while i < |snapshots|
      invariant i <= |snapshots| && r.Valid() && r.record == RecordAfter(snapshots[..i])
    {
      assert snapshots[..i + 1][..i] == snapshots[..i];
      var fault := r.CommitAll(snapshots[i]);
      i := i + 1;
    }
    assert snapshots[..|snapshots|] == snapshots;
    if Sound(snapshots) {
      RunRecordsHistory(snapshots);
    }
    return r.record;
  }
}
