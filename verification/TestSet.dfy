/** The miner's candidate strings: a counter over byte strings whose first byte lies in the
    miner's share, and the shares themselves. */
module TestSet {
  import opened Bytes

  const PATH_MAX := 4096

  // ---- the counter as a function ---------------------------------------------------

  /** A candidate of the share [low, high). */
  predicate Candidate(s: Text, low: nat, high: nat) {
    s != [] && low <= s[0] < high
  }

  /** add: the digits with one added at the end, and the carry out of the first digit. */
  function Increment(s: Text, low: byte, high: nat): (r: (Text, nat))
    requires s != []
    requires low < high <= 256 && low <= s[0] < high
    ensures |r.0| == |s| && r.1 <= 1 && low <= r.0[0] < high
  {
    var last := |s| - 1;
    if last == 0 then
      if s[0] != high - 1 then ([s[0] + 1], 0) else ([low], 1)
    else if s[last] != 255 then (s[..last] + [s[last] + 1], 0)
    else
      var (r, carry) := Increment(s[..last], low, high);
      (r + [0], carry)
  }

  /** testset_next: a carry makes the string one byte longer. */
  function Next(s: Text, low: byte, high: nat): (r: Text)
    requires low < high <= 256 && Candidate(s, low, high)
    ensures Candidate(r, low, high)
  {
    var (r, carry) := Increment(s, low, high);
    if carry == 1 then r + [0] else r
  }

  /** How many candidates come before s: shorter ones first, then by value. */
  function Rank(s: Text, low: nat, high: nat): nat
    requires low < high && Candidate(s, low, high)
  {
    if |s| == 1 then s[0] - low else high - low + 256 * Rank(s[..|s| - 1], low, high) + s[|s| - 1]
  }

  /** The candidate with a given rank. */
  function Unrank(k: nat, low: nat, high: nat): (s: Text)
    requires low < high <= 256
    ensures Candidate(s, low, high)
  {
    if k < high - low then [low + k]
    else Unrank((k - (high - low)) / 256, low, high) + [(k - (high - low)) % 256]
  }

  lemma {:induction false} RankUnrank(k: nat, low: nat, high: nat)
    requires low < high <= 256
    ensures Rank(Unrank(k, low, high), low, high) == k
  {
    if k >= high - low {
      var s := Unrank(k, low, high);
      assert s[..|s| - 1] == Unrank((k - (high - low)) / 256, low, high);
      RankUnrank((k - (high - low)) / 256, low, high);
    }
  }

  lemma {:induction false} UnrankRank(s: Text, low: nat, high: nat)
    requires low < high <= 256 && Candidate(s, low, high)
    ensures Unrank(Rank(s, low, high), low, high) == s
  {
    if |s| > 1 {
      var r := Rank(s[..|s| - 1], low, high);
      UnrankRank(s[..|s| - 1], low, high);
      assert (256 * r + s[|s| - 1]) / 256 == r && (256 * r + s[|s| - 1]) % 256 == s[|s| - 1];
      assert s == s[..|s| - 1] + [s[|s| - 1]];
    } else {
      assert s == [s[0]];
    }
  }

  lemma {:induction false} IncrementRank(s: Text, low: byte, high: nat)
    requires low < high <= 256 && Candidate(s, low, high)
    ensures var (r, carry) := Increment(s, low, high);
            if carry == 0 then Rank(r, low, high) == Rank(s, low, high) + 1
            else high - low + 256 * Rank(r, low, high) == Rank(s, low, high) + 1
  {
    var last := |s| - 1;
    var (r, carry) := Increment(s, low, high);
    if last > 0 {
      if s[last] != 255 {
        assert r[..last] == s[..last];
      } else {
        IncrementRank(s[..last], low, high);
        assert r[..last] == Increment(s[..last], low, high).0;
      }
    }
  }

  /** The counter raises the rank by exactly one. */
  lemma NextRank(s: Text, low: byte, high: nat)
    requires low < high <= 256 && Candidate(s, low, high)
    ensures Rank(Next(s, low, high), low, high) == Rank(s, low, high) + 1
  {
    var (r, carry) := Increment(s, low, high);
    IncrementRank(s, low, high);
    assert (r + [0])[..|r|] == r;
  }

  /** The string after t steps of the counter. */
  function Visited(t: nat, low: byte, high: nat): (s: Text)
    requires low < high <= 256
    ensures Candidate(s, low, high)
  {
    if t == 0 then [low] else Next(Visited(t - 1, low, high), low, high)
  }

  lemma {:induction false} VisitedRank(t: nat, low: byte, high: nat)
    requires low < high <= 256
    ensures Rank(Visited(t, low, high), low, high) == t
  {
    if t > 0 {
      VisitedRank(t - 1, low, high);
      NextRank(Visited(t - 1, low, high), low, high);
    }
  }

  /** Each candidate of a share is visited exactly once, at the step that is its rank. */
  lemma VisitedOnce(s: Text, t: nat, low: byte, high: nat)
    requires low < high <= 256 && Candidate(s, low, high)
    ensures Visited(t, low, high) == s <==> t == Rank(s, low, high)
  {
    VisitedRank(t, low, high);
    if t == Rank(s, low, high) {
      UnrankRank(s, low, high);
      UnrankRank(Visited(t, low, high), low, high);
    }
  }

  /** Longer candidates come later. */
  lemma {:induction false} ShorterFirst(s: Text, t: Text, low: nat, high: nat)
    requires low < high <= 256 && Candidate(s, low, high) && Candidate(t, low, high) && |s| < |t|
    ensures Rank(s, low, high) < Rank(t, low, high)
  {
    if |s| > 1 {
      ShorterFirst(s[..|s| - 1], t[..|t| - 1], low, high);
    }
  }

  /** Among strings of one length the order is that of the first byte in which they differ. */
  lemma {:induction false} EarlierByte(s: Text, t: Text, i: nat, low: nat, high: nat)
    requires low < high <= 256 && Candidate(s, low, high) && Candidate(t, low, high) && |s| == |t|
    requires i < |s| && s[..i] == t[..i] && s[i] < t[i]
    ensures Rank(s, low, high) < Rank(t, low, high)
  {
    var last := |s| - 1;
    if i < last {
      assert s[..last][..i] == s[..i] && t[..last][..i] == t[..i];
      EarlierByte(s[..last], t[..last], i, low, high);
    }
  }

  // ---- the shares ------------------------------------------------------------------

  function Lower(k: nat, n: nat): nat
    requires 0 < n
  {
    256 * k / n
  }

  function Higher(k: nat, n: nat): nat
    requires 0 < n
  {
    256 * (k + 1) / n
  }

  lemma FloorAtMost(a: nat, n: nat, b: nat)
    requires 0 < n
    ensures a / n <= b <==> a < (b + 1) * n
  {
    var q, r := a / n, a % n;
    assert a == q * n + r;
    if q <= b {
      assert q * n <= b * n;
      assert (b + 1) * n == b * n + n;
    } else {
      assert q * n >= (b + 1) * n;
    }
  }

  /** Every share holds a byte, and no byte beyond 255. */
  lemma ShareBounds(k: nat, n: nat)
    requires 0 < n <= 256 && k < n
    ensures Lower(k, n) < Higher(k, n) <= 256
  {
    FloorAtMost(256 * (k + 1), n, Lower(k, n));
    FloorAtMost(256 * k, n, Lower(k, n));
    var low := Lower(k, n);
    assert 256 * k == low * n + (256 * k) % n;
    assert (low + 1) * n == low * n + n;
    assert 256 * (k + 1) == 256 * k + 256;
    FloorAtMost(256 * (k + 1), n, 256);
    assert 256 * (k + 1) <= 256 * n;
    assert 257 * n == 256 * n + n;
  }

  /** The shares follow one another from 0 to 256, and their sizes differ by one at most. */
  lemma SharesInOrder(k: nat, n: nat)
    requires 0 < n && k < n
    ensures Lower(0, n) == 0 && Higher(n - 1, n) == 256 && Higher(k, n) == Lower(k + 1, n)
    ensures 256 / n <= Higher(k, n) - Lower(k, n) <= 256 / n + 1
  {
    FloorStep(256 * k, 256, n);
    FloorAtMost(256 * n, n, 256);
    FloorAtMost(256 * n, n, 255);
    assert 257 * n == 256 * n + n;
  }

  lemma SumBetween(a: nat, b: nat, p: nat, t: nat, n: nat)
    requires p * n <= a < p * n + n && t * n <= b < t * n + n
    ensures (p + t) * n <= a + b < (p + t + 1 + 1) * n
  {
    assert (p + t) * n == p * n + t * n;
    assert (p + t + 1 + 1) * n == (p + t) * n + n + n;
  }

  lemma FloorBetween(a: nat, n: nat)
    requires 0 < n
    ensures a / n * n <= a < a / n * n + n
  {
  }

  lemma FloorStep(a: nat, b: nat, n: nat)
    requires 0 < n
    ensures a / n + b / n <= (a + b) / n <= a / n + b / n + 1
  {
    var p, t := a / n, b / n;
    FloorBetween(a, n);
    FloorBetween(b, n);
    SumBetween(a, b, p, t, n);
    FloorAtMost(a + b, n, p + t + 1);
    if p + t > 0 {
      FloorAtMost(a + b, n, p + t - 1);
    }
  }

  /** The share a byte belongs to. */
  function ShareOf(b: byte, n: nat): nat
    requires 0 < n
  {
    ((b + 1) * n - 1) / 256
  }

  /** The shares partition the bytes. */
  lemma SharesPartition(b: byte, n: nat, k: nat)
    requires 0 < n && k < n
    ensures Lower(k, n) <= b < Higher(k, n) <==> k == ShareOf(b, n)
    ensures ShareOf(b, n) < n
  {
    var m := (b + 1) * n;
    FloorAtMost(256 * k, n, b);
    FloorAtMost(256 * (k + 1), n, b);
    assert Lower(k, n) <= b < Higher(k, n) <==> 256 * k < m <= 256 * (k + 1);
    assert m <= 256 * n;
  }

  /** n miners together visit every non-empty byte string exactly once: one miner does, at
      one step. */
  lemma EveryStringOnce(s: Text, n: nat) returns (k: nat, t: nat)
    requires s != [] && 0 < n <= 256
    ensures k < n && Lower(k, n) < Higher(k, n) <= 256 && Visited(t, Lower(k, n), Higher(k, n)) == s
    ensures forall k': nat, t': nat ::
              (k' < n && Lower(k', n) < Higher(k', n) <= 256 && Visited(t', Lower(k', n), Higher(k', n)) == s) ==>
              k' == k && t' == t
  {
    k := ShareOf(s[0], n);
    SharesPartition(s[0], n, 0);
    SharesPartition(s[0], n, k);
    ShareBounds(k, n);
    t := Rank(s, Lower(k, n), Higher(k, n));
    VisitedOnce(s, t, Lower(k, n), Higher(k, n));
    forall k': nat, t': nat | k' < n && Lower(k', n) < Higher(k', n) <= 256
        && Visited(t', Lower(k', n), Higher(k', n)) == s
      ensures k' == k && t' == t
    {
      SharesPartition(s[0], n, k');
      VisitedOnce(s, t', Lower(k, n), Higher(k, n));
    }
  }

  // ---- the counter in its array -------------------------------------------------------

  class Counter {
    const set_: array<byte>
    var digit: nat

    /** init. */
    constructor (lower: byte)
      ensures Valid() && fresh(set_) && digit == 1 && Contents() == [lower]
    {
      set_ := new byte[PATH_MAX](_ => 0);
      digit := 1;
      new;
      set_[0] := lower;
    }

    /** The bytes behind the string are still zero. */
    ghost predicate Valid()
      reads this, set_
    {
      && set_.Length == PATH_MAX && 1 <= digit <= PATH_MAX + 1
      && forall k :: digit <= k < PATH_MAX ==> set_[k] == 0
    }

    ghost function Contents(): Text
      requires Valid() && digit <= PATH_MAX
      reads this, set_
    {
      set_[..digit]
    }

    /** add, on the digits up to d. */
    method Add(d: nat, low: byte, high: nat) returns (carry: nat)
      requires d < set_.Length && low < high <= 256 && low <= set_[0] < high
      modifies set_
      ensures (set_[..d + 1], carry) == Increment(old(set_[..d + 1]), low, high)
      ensures forall k :: d < k < set_.Length ==> set_[k] == old(set_[k])
      decreases d
    {
      ghost var s := set_[..d + 1];
      if d == 0 {
        if set_[d] != high - 1 {
          set_[d] := set_[d] + 1;
          carry := 0;
        } else {
          set_[d] := low;
          carry := 1;
        }
        assert set_[..1] == [set_[0]];
      } else if set_[d] != 255 {
        set_[d] := set_[d] + 1;
        carry := 0;
        assert set_[..d + 1] == s[..d] + [s[d] + 1];
      } else {
        set_[d] := 0;
        assert set_[..d] == s[..d];
        carry := Add(d - 1, low, high);
        assert set_[..d + 1] == set_[..d] + [0];
      }
    }

    /** testset_next. A string that fills the array can be counted on while no carry makes
        it longer. */
    method Step(lower: byte, higher: nat)
      requires Valid() && digit <= PATH_MAX && lower < higher <= 256 && Candidate(Contents(), lower, higher)
      modifies this, set_
      ensures Valid() && digit == |Next(old(Contents()), lower, higher)|
      ensures digit <= PATH_MAX ==> Contents() == Next(old(Contents()), lower, higher)
    {
      ghost var s := Contents();
      var carry := Add(digit - 1, lower, higher);
      digit := digit + carry;
      if carry == 1 && digit <= PATH_MAX {
        assert set_[..digit] == set_[..digit - 1] + [0];
      }
    }
  }
}
