/** The chained hash table: buckets of linked nodes, and the iterator over them. */
module HashTable {
  import opened Wrappers

  /** C's remainder takes the sign of its left operand. */
  function CRemainder(a: int, n: int): int
    requires n > 0
  {
    if a >= 0 then a % n else -((-a) % n)
  }

  /** The bucket of a code. */
  function Bucket(code: int, n: int): (pos: int)
    requires n > 0
    ensures 0 <= pos < n
  {
    var pos := CRemainder(code, n);
    if pos < 0 then n + pos else pos
  }

  /** The bucket is the residue, for negative codes too. */
  lemma BucketIsResidue(code: int, n: int)
    requires n > 0
    ensures Bucket(code, n) == code % n
  {
    if code < 0 {
      var q, r := (-code) / n, (-code) % n;
      assert -code == q * n + r;
      if r == 0 {
        assert code == (-q) * n;
        ResidueUnique(code, n, -q, 0);
      } else {
        assert code == (-q - 1) * n + (n - r) by {
          assert (-q - 1) * n == -(q * n) - n;
        }
        ResidueUnique(code, n, -q - 1, n - r);
      }
    }
  }

  /** Two codes share a bucket exactly when they differ by a multiple of the table size. */
  lemma SameBucket(a: int, b: int, n: int)
    requires n > 0
    ensures Bucket(a, n) == Bucket(b, n) <==> (a - b) % n == 0
  {
    hide Bucket;
    BucketIsResidue(a, n);
    BucketIsResidue(b, n);
    var p, q, r := a / n, b / n, (a - b) / n;
    assert a == p * n + a % n && b == q * n + b % n && a - b == r * n + (a - b) % n;
    if a % n == b % n {
      assert a - b == (p - q) * n;
      ResidueUnique(a - b, n, p - q, 0);
    }
    if (a - b) % n == 0 {
      assert a == (r + q) * n + b % n;
      ResidueUnique(a, n, r + q, b % n);
    }
  }

  lemma ResidueUnique(a: int, n: int, q: int, r: int)
    requires n > 0 && a == q * n + r && 0 <= r < n
    ensures a % n == r
  {
    var q', r' := a / n, a % n;
    assert a == q' * n + r';
    assert (q - q') * n == q * n - q' * n == r' - r;
    SmallMultiple(q - q', n);
  }

  lemma SmallMultiple(d: int, n: int)
    requires -n < d * n < n
    ensures d == 0
  {
    if d * n >= 0 {
      assert d >= 1 ==> (d - 1) * n >= 0;
      assert d <= -1 ==> (-d) * n >= n;
    } else {
      assert d <= -1 ==> (-d - 1) * n >= 0;
    }
  }

  class Node<V> {
    const contain: V
    const code: int
    var next: Node?<V>

    constructor (contain: V, code: int)
      ensures this.contain == contain && this.code == code && next == null
    {
      this.contain := contain;
      this.code := code;
      next := null;
    }
  }

  /** head is the first node of the list c. */
  ghost predicate Linked<V>(head: Node?<V>, c: seq<Node<V>>)
    reads c
  {
    && head == (if c == [] then null else c[0])
    && forall k {:trigger c[k].next} :: 0 <= k < |c| ==> c[k].next == if k + 1 < |c| then c[k + 1] else null
  }

  /** The codes of a chain are distinct and belong in its bucket. */
  ghost predicate CodesFit<V>(c: seq<Node<V>>, pos: int, n: int)
    requires n > 0
  {
    && (forall k :: 0 <= k < |c| ==> Bucket(c[k].code, n) == pos)
    && forall j, k :: 0 <= j < k < |c| ==> c[j].code != c[k].code
  }

  /** The value of a code in its chain. */
  ghost function Find<V>(c: seq<Node<V>>, code: int): Option<V> {
    if c == [] then None else if c[0].code == code then Some(c[0].contain) else Find(c[1..], code)
  }

  lemma {:induction false} FindAt<V>(c: seq<Node<V>>, k: nat)
    requires k < |c| && forall j :: 0 <= j < k ==> c[j].code != c[k].code
    ensures Find(c, c[k].code) == Some(c[k].contain)
  {
    if k > 0 {
      FindAt(c[1..], k - 1);
    }
  }

  lemma EmptyFinds<V>(c: seq<Node<V>>)
    requires c == []
    ensures forall code :: Find(c, code) == None
  {
  }

  lemma {:induction false} FindNot<V>(c: seq<Node<V>>, code: int)
    requires forall k :: 0 <= k < |c| ==> c[k].code != code
    ensures Find(c, code) == None
  {
    if c != [] {
      FindNot(c[1..], code);
    }
  }

  lemma {:induction false} FindSplit<V>(a: seq<Node<V>>, b: seq<Node<V>>, code: int)
    ensures Find(a + b, code) == if Find(a, code).Some? then Find(a, code) else Find(b, code)
  {
    if a == [] {
      assert a + b == b;
    } else {
      assert (a + b)[1..] == a[1..] + b;
      FindSplit(a[1..], b, code);
    }
  }

  class Table<V> {
    const n: int
    const node: array<Node?<V>>
    /** The chains the buckets hold. */
    ghost var chains: seq<seq<Node<V>>>

    constructor (n: nat)
      requires n > 0
      ensures Valid() && fresh(node) && this.n == n && forall p :: 0 <= p < n ==> chains[p] == []
      ensures forall code :: Lookup(code) == None
    {
      this.n := n;
      node := new Node?<V>[n](_ => null);
      chains := seq(n, _ => []);
    }

    ghost predicate Valid()
      reads this, node, Nodes(chains)
    {
      && n > 0 && n == node.Length == |chains|
      && (forall p :: 0 <= p < n ==> Linked(node[p], chains[p]))
      && (forall p :: 0 <= p < n ==> CodesFit(chains[p], p, n))
    }

    /** The table as a map. */
    ghost function Lookup(code: int): Option<V>
      requires n > 0 && n == |chains|
      reads this
    {
      Find(chains[Bucket(code, n)], code)
    }

    /** The bucket of a code, as every operation computes it. */
    method Position(code: int) returns (pos: int)
      requires n > 0
      ensures pos == Bucket(code, n)
    {
      pos := CRemainder(code, n);
      if pos < 0 {
        pos := n + pos;
      }
    }

    method Get(code: int) returns (contain: Option<V>)
      requires Valid()
      ensures contain == Lookup(code)
    {
      hide Find, Bucket;
      var pos := Position(code);
      ghost var c := chains[pos];
      assert Linked(node[pos], c) && CodesFit(c, pos, n);
      var p := node[pos];
      ghost var k := 0;
      while p != null
        invariant 0 <= k <= |c| && p == if k < |c| then c[k] else null
        invariant forall j :: 0 <= j < k ==> c[j].code != code
        decreases |c| - k
      {
        if p.code == code {
          FindAt(c, k);
          return Some(p.contain);
        }
        p := p.next;
        k := k + 1;
      }
      FindNot(c, code);
      return None;
    }

    /** The end of a chain, unless the code is met on the way. */
    method Last(pos: int, code: int) returns (last: Node?<V>)
      requires Valid() && 0 <= pos < n && node[pos] != null
      ensures last == null <==> Find(chains[pos], code).Some?
      ensures last != null ==> forall k {:trigger chains[pos][k]} :: 0 <= k < |chains[pos]| ==>
              chains[pos][k].code != code
      ensures last != null ==> chains[pos] != [] && last == chains[pos][|chains[pos]| - 1]
    {
      ghost var c := chains[pos];
      assert Linked(node[pos], c) && CodesFit(c, pos, n);
      var p := node[pos];
      ghost var k := 0;
      while p.next != null
        invariant 0 <= k < |c| && p == c[k]
        invariant forall j :: 0 <= j < k ==> c[j].code != code
        decreases |c| - k
      {
        if p.code == code {
          FindAt(c, k);
          return null;
        }
        p := p.next;
        k := k + 1;
      }
      if p.code == code {
        FindAt(c, k);
        return null;
      }
      FindNot(c, code);
      return p;
    }

    /** One node with the code has come to the end of its bucket's chain. */
    ghost predicate Grown(before: seq<seq<Node<V>>>, after: seq<seq<Node<V>>>, code: int)
      requires n > 0 && |before| == |after| == n
    {
      var pos := Bucket(code, n);
      && (forall q :: 0 <= q < n && q != pos ==> after[q] == before[q])
      && |after[pos]| == |before[pos]| + 1 && after[pos][..|before[pos]|] == before[pos]
      && after[pos][|before[pos]|].code == code
    }

    /** An entry for an empty bucket. */
    method PutFirst(pos: int, contain: V, code: int)
      requires Valid() && pos == Bucket(code, n) && node[pos] == null
      modifies this`chains, node
      ensures Valid() && fresh(Nodes(chains) - old(Nodes(chains)))
      ensures old(Lookup(code)) == None
      ensures forall x :: Lookup(x) == if x == code then Some(contain) else old(Lookup(x))
      ensures Grown(old(chains), chains, code)
    {
      hide Find, Bucket;
      ghost var c := chains[pos];
      assert Linked(node[pos], c);
      EmptyFinds(c);
      var entry := new Node<V>(contain, code);
      node[pos] := entry;
      Record(pos, [entry]);
      Appended(c, entry, chains[pos]);
    }

    /** put_into_hash: a code already there is refused. */
    method Put(contain: V, code: int) returns (ok: bool)
      requires Valid()
      modifies this`chains, node, Nodes(chains)`next
      ensures Valid() && fresh(Nodes(chains) - old(Nodes(chains)))
      ensures ok <==> old(Lookup(code)) == None
      ensures !ok ==> chains == old(chains)
      ensures forall x :: Lookup(x) == if ok && x == code then Some(contain) else old(Lookup(x))
      ensures ok ==> Grown(old(chains), chains, code)
    {
      hide Find, Bucket;
      var pos := Position(code);
      assert Linked(node[pos], chains[pos]);
      if node[pos] == null {
        PutFirst(pos, contain, code);
        return true;
      }
      var last := Last(pos, code);
      if last == null {
        return false;
      }
      ghost var c := chains[pos];
      OthersKeep(pos, last);
      var entry := new Node<V>(contain, code);
      last.next := entry;
      Record(pos, c + [entry]);
      Appended(c, entry, chains[pos]);
      return true;
    }

    /** A node of one bucket is in no other. */
    lemma OthersKeep(pos: int, x: Node<V>)
      requires Valid() && 0 <= pos < n && Bucket(x.code, n) == pos
      ensures forall q :: 0 <= q < n && q != pos ==> x !in chains[q]
    {
      forall q | 0 <= q < n && q != pos
        ensures x !in chains[q]
      {
        assert CodesFit(chains[q], q, n);
      }
    }

    /** One bucket's chain has changed in the heap. */
    ghost method Record(pos: int, c: seq<Node<V>>)
      requires n > 0 && n == node.Length == |chains| && 0 <= pos < n
      requires forall q :: 0 <= q < n && q != pos ==> Linked(node[q], chains[q]) && CodesFit(chains[q], q, n)
      requires Linked(node[pos], c) && CodesFit(c, pos, n)
      modifies `chains
      ensures Valid() && chains == old(chains)[pos := c]
    {
      chains := chains[pos := c];
    }

    /** del_from_hash: the first node of a bucket takes the whole bucket with it. */
    method Del(code: int) returns (contain: Option<V>)
      requires Valid()
      modifies this`chains, node, Nodes(chains)`next
      ensures Valid() && contain == old(Lookup(code))
      ensures forall q :: 0 <= q < n && q != Bucket(code, n) ==> chains[q] == old(chains)[q]
      ensures forall x :: Lookup(x) ==
                if contain.Some? && (x == code || (Bucket(x, n) == Bucket(code, n) && old(Heads(code)))) then None
                else old(Lookup(x))
      ensures (forall x :: x != code ==> Lookup(x) == old(Lookup(x)))
              <==> !(old(Heads(code)) && |old(chains)[Bucket(code, n)]| > 1)
    {
      hide Find, Bucket;
      HeadTakesOthers(this, code);
      contain := Remove(code);
    }

    /** The walk along the chain. */
    method Remove(code: int) returns (contain: Option<V>)
      requires Valid()
      modifies this`chains, node, Nodes(chains)`next
      ensures Valid() && contain == old(Lookup(code))
      ensures forall q :: 0 <= q < n && q != Bucket(code, n) ==> chains[q] == old(chains)[q]
      ensures forall x :: Lookup(x) ==
                if contain.Some? && (x == code || (Bucket(x, n) == Bucket(code, n) && old(Heads(code)))) then None
                else old(Lookup(x))
    {
      hide Find, Bucket;
      var pos := Position(code);
      ghost var c := chains[pos];
      assert Linked(node[pos], c) && CodesFit(c, pos, n);
      var p := node[pos];
      var pre: Node?<V> := null;
      ghost var k := 0;
      while p != null
        invariant 0 <= k <= |c| && p == (if k < |c| then c[k] else null) && pre == (if k > 0 then c[k - 1] else null)
        invariant forall j :: 0 <= j < k ==> c[j].code != code
        decreases |c| - k
      {
        if p.code == code {
          FindAt(c, k);
          contain := Some(p.contain);
          if pre != null {
            OthersKeep(pos, pre);
            pre.next := p.next;
            ghost var rest := c[..k] + c[k + 1..];
            Removed(c, k, pos, n, rest);
            Record(pos, rest);
          } else {
            node[pos] := null;
            Record(pos, []);
            EmptyFinds(chains[pos]);
          }
          return;
        }
        pre := p;
        p := p.next;
        k := k + 1;
      }
      FindNot(c, code);
      return None;
    }

    ghost predicate Heads(code: int)
      requires n > 0 && n == |chains|
      reads this
    {
      var c := chains[Bucket(code, n)];
      c != [] && c[0].code == code
    }
  }

  lemma Appended<V>(c: seq<Node<V>>, x: Node<V>, grown: seq<Node<V>>)
    requires Find(c, x.code) == None && grown == c + [x]
    ensures forall code :: Find(grown, code) == if code == x.code then Some(x.contain) else Find(c, code)
  {
    forall code
      ensures Find(grown, code) == if code == x.code then Some(x.contain) else Find(c, code)
    {
      FindSplit(c, [x], code);
    }
  }

  lemma Removed<V>(c: seq<Node<V>>, k: nat, pos: int, n: int, rest: seq<Node<V>>)
    requires n > 0 && k < |c| && CodesFit(c, pos, n) && rest == c[..k] + c[k + 1..]
    ensures forall code :: Find(rest, code) == if code == c[k].code then None else Find(c, code)
    ensures CodesFit(rest, pos, n)
  {
    hide Bucket, Find;
    forall code
      ensures Find(rest, code) == if code == c[k].code then None else Find(c, code)
    {
      FindWithout(c, k, code);
    }
  }

  lemma FindWithout<V>(c: seq<Node<V>>, k: nat, code: int)
    requires k < |c| && forall i, j :: 0 <= i < j < |c| ==> c[i].code != c[j].code
    ensures Find(c[..k] + c[k + 1..], code) == if code == c[k].code then None else Find(c, code)
  {
    hide Find;
    FindSplit(c[..k], c[k + 1..], code);
    if code == c[k].code {
      FindNot(c[..k], code);
      FindNot(c[k + 1..], code);
    } else {
      assert c == c[..k] + ([c[k]] + c[k + 1..]);
      FindSplit(c[..k], [c[k]] + c[k + 1..], code);
      FindSplit([c[k]], c[k + 1..], code);
      FindNot([c[k]], code);
    }
  }

  /** A code that heads its chain has others behind it exactly when its bucket holds another code
      with a value: the ones a delete takes with it. */
  lemma HeadTakesOthers<V>(table: Table<V>, code: int)
    requires table.Valid()
    ensures table.Heads(code) ==>
              table.Lookup(code).Some? &&
              (|table.chains[Bucket(code, table.n)]| > 1
               <==> exists x :: x != code && Bucket(x, table.n) == Bucket(code, table.n) && table.Lookup(x).Some?)
  {
    hide Bucket, Find;
    var n, pos := table.n, Bucket(code, table.n);
    var c := table.chains[pos];
    assert CodesFit(c, pos, n);
    if table.Heads(code) {
      FindAt(c, 0);
      if |c| > 1 {
        FindAt(c, 1);
        assert c[0].code != c[1].code;
        assert table.Lookup(c[1].code).Some?;
      } else {
        forall x | x != code && Bucket(x, n) == pos
          ensures table.Lookup(x) == None
        {
          FindNot(c, x);
        }
      }
    }
  }

  /** A delete that loses another code: in a table of one bucket 0 is put before 1, and when 0 is
      deleted 1 is gone. */
  method DeleteLosesOther() returns (before: Option<int>, after: Option<int>)
    ensures before == Some(11) && after == None
  {
    hide Find, Bucket;
    BucketIsResidue(0, 1);
    BucketIsResidue(1, 1);
    var table := new Table<int>(1);
    assert Nodes(table.chains) == {};
    var ok := table.Put(10, 0);
    assert table.chains[0][0].code == 0;
    ok := table.Put(11, 1);
    before := table.Get(1);
    assert table.chains[0][..1][0] == table.chains[0][0];
    var gone := table.Del(0);
    after := table.Get(1);
  }

  ghost function Nodes<V>(chains: seq<seq<Node<V>>>): set<Node<V>> {
    set p, k | 0 <= p < |chains| && 0 <= k < |chains[p]| :: chains[p][k]
  }

  // ---- the iterator ----------------------------------------------------------------------------

  ghost function Concat<V>(chains: seq<seq<Node<V>>>): seq<Node<V>> {
    if chains == [] then [] else chains[0] + Concat(chains[1..])
  }

  lemma {:induction false} ConcatSkipsEmpty<V>(chains: seq<seq<Node<V>>>, from: int, upTo: int)
    requires 0 <= from <= upTo <= |chains| && forall p :: from <= p < upTo ==> chains[p] == []
    ensures Concat(chains[from..]) == Concat(chains[upTo..])
    decreases upTo - from
  {
    if from < upTo {
      assert chains[from..][1..] == chains[from + 1..];
      ConcatSkipsEmpty(chains, from + 1, upTo);
    }
  }

  class Cursor<V> {
    const hash: Table<V>
    var node: Node?<V>
    var n: int
    /** The place of node in its chain. */
    ghost var k: nat

    ghost predicate Valid()
      reads this, hash, hash.node, Nodes(hash.chains)
    {
      && hash.Valid() && 0 <= n <= hash.n
      && (n < hash.n ==> k < |hash.chains[n]| && node == hash.chains[n][k])
    }

    /** The entries still to come, the current one first. */
    ghost function Rest(): seq<Node<V>>
      requires Valid()
      reads this, hash, hash.node, Nodes(hash.chains)
    {
      if n < hash.n then hash.chains[n][k..] + Concat(hash.chains[n + 1..]) else []
    }

    /** The first bucket from `from` on that holds something. */
    method NextBucket(from: int) returns (pos: int)
      requires hash.Valid() && 0 <= from <= hash.n
      ensures from <= pos <= hash.n && Concat(hash.chains[from..]) == Concat(hash.chains[pos..])
      ensures pos < hash.n ==> hash.node[pos] != null && hash.chains[pos] != [] && hash.node[pos] == hash.chains[pos][0]
    {
      pos := from;
      while pos < hash.n && hash.node[pos] == null
        invariant from <= pos <= hash.n
        invariant forall p :: from <= p < pos ==> hash.chains[p] == []
      {
        assert Linked(hash.node[pos], hash.chains[pos]);
        pos := pos + 1;
      }
      ConcatSkipsEmpty(hash.chains, from, pos);
      if pos < hash.n {
        assert Linked(hash.node[pos], hash.chains[pos]);
      }
    }

    /** The iterator moves to the first entry from bucket `from` on. */
    method Settle(from: int)
      requires hash.Valid() && 0 <= from <= hash.n
      modifies this
      ensures Valid() && Rest() == Concat(hash.chains[from..])
      ensures n < hash.n ==> Rest() != [] && node == Rest()[0]
    {
      hide Concat;
      n := NextBucket(from);
      k := 0;
      if n < hash.n {
        node := hash.node[n];
        ConcatFirst(hash.chains, n);
        assert hash.chains[n][0..] == hash.chains[n];
      } else {
        node := null;
        ConcatEnd(hash.chains);
      }
    }

    /** init_hash_iterator. */
    constructor (h: Table<V>)
      requires h.Valid()
      ensures hash == h && Valid() && Rest() == Concat(h.chains)
      ensures n < hash.n ==> Rest() != [] && node == Rest()[0]
    {
      hash := h;
      node := null;
      new;
      Settle(0);
      assert h.chains[0..] == h.chains;
    }

    /** add_hash_iterator: the current entry is left behind, and nothing else. */
    method Add()
      requires Valid()
      modifies this
      ensures Valid() && Rest() == if old(Rest()) == [] then [] else old(Rest())[1..]
      ensures n < hash.n ==> Rest() != [] && node == Rest()[0]
    {
      hide Concat;
      if n == hash.n {
        return;
      }
      ghost var c := hash.chains[n];
      assert Linked(hash.node[n], c);
      assert c[k..] == [c[k]] + c[k + 1..];
      if node.next != null {
        node := node.next;
        k := k + 1;
        return;
      }
      assert c[k + 1..] == [];
      Settle(n + 1);
    }
  }

  lemma ConcatFirst<V>(chains: seq<seq<Node<V>>>, n: nat)
    requires n < |chains|
    ensures Concat(chains[n..]) == chains[n] + Concat(chains[n + 1..])
  {
    assert chains[n..][1..] == chains[n + 1..];
  }

  lemma ConcatEnd<V>(chains: seq<seq<Node<V>>>)
    ensures Concat(chains[|chains|..]) == []
  {
  }

  /** The entries the iterator yields are the map: every code that has a value appears exactly
      once, with its value. */
  lemma EntriesAreTheMap<V>(table: Table<V>)
    requires table.Valid()
    ensures
      var all := Concat(table.chains);
      && (forall i, j :: 0 <= i < j < |all| ==> all[i].code != all[j].code)
      && (forall i :: 0 <= i < |all| ==> table.Lookup(all[i].code) == Some(all[i].contain))
      && (forall code :: table.Lookup(code).Some? ==> exists i :: 0 <= i < |all| && all[i].code == code)
  {
    hide Find, Bucket;
    var chains, n := table.chains, table.n;
    assert chains[0..] == chains;
    EntriesFrom(chains, 0, n);
  }

  lemma {:induction false} EntriesFrom<V>(chains: seq<seq<Node<V>>>, from: nat, n: int)
    requires n > 0 && from <= |chains| == n && forall p :: 0 <= p < n ==> CodesFit(chains[p], p, n)
    ensures
      var all := Concat(chains[from..]);
      && (forall i, j :: 0 <= i < j < |all| ==> all[i].code != all[j].code)
      && (forall i :: 0 <= i < |all| ==>
         from <= Bucket(all[i].code, n) && Find(chains[Bucket(all[i].code, n)], all[i].code) == Some(all[i].contain))
      && (forall code :: from <= Bucket(code, n) && Find(chains[Bucket(code, n)], code).Some? ==>
            exists i :: 0 <= i < |all| && all[i].code == code)
    decreases n - from
  {
    hide Find, Bucket, Concat;
    if from == n {
      ConcatEnd(chains);
      return;
    }
    EntriesFrom(chains, from + 1, n);
    ConcatFirst(chains, from);
    var c, rest, all := chains[from], Concat(chains[from + 1..]), Concat(chains[from..]);
    assert CodesFit(c, from, n);
    forall k | 0 <= k < |c|
      ensures Find(c, c[k].code) == Some(c[k].contain) && all[k] == c[k]
    {
      FindAt(c, k);
    }
    forall i | |c| <= i < |all| ensures all[i] == rest[i - |c|] {}
    forall code | from <= Bucket(code, n) && Find(chains[Bucket(code, n)], code).Some?
      ensures exists i :: 0 <= i < |all| && all[i].code == code
    {
      if Bucket(code, n) == from {
        var i := IndexOf(c, code);
        assert all[i].code == code;
      } else {
        var i :| 0 <= i < |rest| && rest[i].code == code;
        assert all[|c| + i].code == code;
      }
    }
  }

  lemma {:induction false} IndexOf<V>(c: seq<Node<V>>, code: int) returns (i: nat)
    requires Find(c, code).Some?
    ensures i < |c| && c[i].code == code
  {
    if c[0].code == code {
      i := 0;
    } else {
      i := IndexOf(c[1..], code);
      i := i + 1;
    }
  }
}
