/** What log prints, commit by commit. */
module LogMeaning {
  import opened Bytes
  import opened CommitRecord
  import opened CommitSections
  import opened Lines
  import opened RecordLog
  import opened RecordText

  /** Texts one behind the other with an empty line between two of them. */
  function Separated(blocks: seq<Text>): Text {
    if blocks == [] then [] else if |blocks| == 1 then blocks[0] else blocks[0] + [10] + Separated(blocks[1..])
  }

  /** The text says what commit m was. */
  ghost predicate Says(h: seq<Snapshot>, m: nat, text: Text)
    requires 0 < m <= |h|
  {
    BlockSays(m, if m == 1 then [] else h[m - 2], h[m - 1], text)
  }

  /** Block i says what commit |h| - i was. */
  ghost predicate SaysNewest(h: seq<Snapshot>, blocks: seq<Text>) {
    |blocks| <= |h| && forall i :: 0 <= i < |blocks| ==> Says(h, |h| - i, blocks[i])
  }

  lemma LastBlockSays(h: seq<Snapshot>) returns (block: Text)
    requires h != []
    ensures block == Join(Block(h, |h|)) && Says(h, |h|, block)
  {
    hide BlockSays, Join, BlockLines;
    block := Join(Block(h, |h|));
    BlockMeans(|h|, if |h| == 1 then [] else h[|h| - 2], h[|h| - 1]);
  }

  lemma SaysStill(before: seq<Snapshot>, h: seq<Snapshot>, m: nat, text: Text)
    requires h != [] && before == h[..|h| - 1] && 0 < m <= |before| && Says(before, m, text)
    ensures Says(h, m, text)
  {
    hide BlockSays;
  }

  lemma {:induction false} NewestSays(h: seq<Snapshot>, k: int) returns (blocks: seq<Text>)
    ensures |blocks| == (if k <= 0 then 0 else if k < |h| then k else |h|)
    ensures SaysNewest(h, blocks) && Newest(h, k) == Separated(blocks)
    decreases |h|
  {
    hide Says, Join, Block;
    if k <= 0 || h == [] {
      blocks := [];
    } else {
      var before := h[..|h| - 1];
      var more := NewestSays(before, k - 1);
      var block := LastBlockSays(h);
      blocks := [block] + more;
      assert blocks[1..] == more;
      assert block + [] + [] == block;
      forall i | 0 < i < |blocks| ensures Says(h, |h| - i, blocks[i]) {
        SaysStill(before, h, |h| - i, more[i - 1]);
      }
    }
  }

  /** While no line of a name is a header, log prints the last min(k, N) commits, newest first, each
      with its number, its sections and its digests, and an empty line between two of them. */
  lemma LogSays(h: seq<Snapshot>, k: int) returns (blocks: seq<Text>)
    requires forall n :: 0 <= n < |h| ==> Named(h[n]) && HeaderFree(h[n])
    ensures |blocks| == (if k <= 0 then 0 else if k < |h| then k else |h|)
    ensures SaysNewest(h, blocks) && Log(LinesOf(RecordOf(h)), k) == Separated(blocks)
  {
    hide Log, Newest, Separated, SaysNewest, Named, HeaderFree;
    LogIff(h);
    blocks := NewestSays(h, k);
  }
}
