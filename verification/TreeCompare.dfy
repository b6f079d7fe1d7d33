/** Comparing trees: what the pairwise walk decides, told apart from how it walks. */
module TreeCompare {
  import opened Bytes
  import opened JsonTree
  import opened Wrappers

  function ToLower(b: byte): byte {
    if 65 <= b <= 90 then b + 32 else b
  }

  function Lower(s: Text): (r: Text)
    ensures |r| == |s|
  {
    if s == [] then [] else [ToLower(s[0])] + Lower(s[1..])
  }

  /** What two keys have in common when they are taken for the same. */
  function Key(s: Text, caseSensitive: bool): Text {
    if caseSensitive then s else Lower(s)
  }

  /** get_object_item: the first member whose key matches. */
  function Lookup(members: seq<Member>, key: Text, caseSensitive: bool): Option<Json> {
    if members == [] then None
    else if Key(members[0].key, caseSensitive) == Key(key, caseSensitive) then Some(members[0].value)
    else Lookup(members[1..], key, caseSensitive)
  }

  /** Where a lookup finds its member. */
  lemma {:induction false} LookupFinds(members: seq<Member>, key: Text, caseSensitive: bool) returns (i: nat)
    requires Lookup(members, key, caseSensitive).Some?
    ensures i < |members| && members[i].value == Lookup(members, key, caseSensitive).value
    ensures Key(members[i].key, caseSensitive) == Key(key, caseSensitive)
  {
    if Key(members[0].key, caseSensitive) == Key(key, caseSensitive) {
      i := 0;
    } else {
      i := LookupFinds(members[1..], key, caseSensitive);
      i := i + 1;
    }
  }

  lemma {:induction false} ItemHeight(items: seq<Json>, i: nat)
    requires i < |items|
    ensures Height(items[i]) <= HeightOfItems(items)
  {
    if i > 0 { ItemHeight(items[1..], i - 1); }
  }

  lemma {:induction false} MemberHeight(members: seq<Member>, i: nat)
    requires i < |members|
    ensures Height(members[i].value) <= HeightOfMembers(members)
  {
    if i > 0 { MemberHeight(members[1..], i - 1); }
  }

  /** cJSON_Compare on two trees that share no node. */
  predicate Compare(a: Json, b: Json, caseSensitive: bool)
    decreases Height(a) + Height(b), 0, 0
  {
    match (a, b)
    case (Null, Null) => true
    case (False, False) => true
    case (True, True) => true
    case (Number(m), Number(n)) => m == n
    case (String(s), String(t)) => s == t
    case (Array(xs), Array(ys)) => CompareItems(xs, ys, caseSensitive)
    case (Object(ms), Object(ns)) => CompareMembers(ms, ns, caseSensitive) && CompareMembers(ns, ms, caseSensitive)
    case _ => false
  }

  predicate CompareItems(xs: seq<Json>, ys: seq<Json>, caseSensitive: bool)
    decreases HeightOfItems(xs) + HeightOfItems(ys), 1, |xs|
  {
    if xs == [] || ys == [] then xs == ys
    else Compare(xs[0], ys[0], caseSensitive) && CompareItems(xs[1..], ys[1..], caseSensitive)
  }

  /** Every member finds an equal counterpart among the others. */
  predicate CompareMembers(ms: seq<Member>, ns: seq<Member>, caseSensitive: bool)
    decreases HeightOfMembers(ms) + HeightOfMembers(ns), 1, |ms|
  {
    if ms == [] then true
    else
      var other := Lookup(ns, ms[0].key, caseSensitive);
      if other.None? then false
      else
        assert Height(other.value) <= HeightOfMembers(ns) by {
          var i := LookupFinds(ns, ms[0].key, caseSensitive);
          MemberHeight(ns, i);
        }
        Compare(ms[0].value, other.value, caseSensitive) && CompareMembers(ms[1..], ns, caseSensitive)
  }

  /** The walk over two arrays, from position i on. */
  lemma CompareItemsFrom(xs: seq<Json>, ys: seq<Json>, i: nat, caseSensitive: bool)
    requires i <= |xs| && i <= |ys|
    ensures i == 0 ==> xs[i..] == xs && ys[i..] == ys
    ensures CompareItems(xs[i..], ys[i..], caseSensitive) <==>
            if i == |xs| || i == |ys| then |xs| == |ys|
            else Compare(xs[i], ys[i], caseSensitive) && CompareItems(xs[i + 1..], ys[i + 1..], caseSensitive)
  {
    if i < |xs| && i < |ys| {
      assert xs[i..][1..] == xs[i + 1..] && ys[i..][1..] == ys[i + 1..];
    }
  }

  /** The walk over the members of one object, from position i on. */
  lemma CompareMembersFrom(ms: seq<Member>, ns: seq<Member>, i: nat, caseSensitive: bool)
    requires i <= |ms|
    ensures i == 0 ==> ms[i..] == ms
    ensures CompareMembers(ms[i..], ns, caseSensitive) <==>
            (i < |ms| ==>
              var other := Lookup(ns, ms[i].key, caseSensitive);
              other.Some? && Compare(ms[i].value, other.value, caseSensitive) &&
                CompareMembers(ms[i + 1..], ns, caseSensitive))
  {
    if i < |ms| {
      assert ms[i..][1..] == ms[i + 1..];
    }
  }

  // ---- objects read as maps ----------------------------------------------------

  /** A tree in which an object is the map its lookups see. */
  datatype Canon =
    | CNull
    | CFalse
    | CTrue
    | CNumber(n: real)
    | CString(s: Text)
    | CArray(items: seq<Canon>)
    | CObject(members: map<Text, Canon>)

  function Canonical(v: Json, caseSensitive: bool): Canon
    decreases v, 0
  {
    match v
    case Null => CNull
    case False => CFalse
    case True => CTrue
    case Number(n) => CNumber(n)
    case String(s) => CString(s)
    case Array(items) => CArray(CanonicalItems(items, caseSensitive))
    case Object(members) => CObject(CanonicalMembers(members, caseSensitive))
  }

  function CanonicalItems(items: seq<Json>, caseSensitive: bool): (r: seq<Canon>)
    ensures |r| == |items|
    decreases items, 1
  {
    if items == [] then [] else [Canonical(items[0], caseSensitive)] + CanonicalItems(items[1..], caseSensitive)
  }

  function CanonicalMembers(members: seq<Member>, caseSensitive: bool): map<Text, Canon>
    decreases members, 1
  {
    if members == [] then map[]
    else
      CanonicalMembers(members[1..], caseSensitive)
      [Key(members[0].key, caseSensitive) := Canonical(members[0].value, caseSensitive)]
  }

  /** Members whose keys are taken for the same carry the same value, at every level. It
      holds of every tree whose keys are distinct. */
  predicate Consistent(v: Json, caseSensitive: bool)
    decreases v, 0
  {
    match v
    case Array(items) => forall i :: 0 <= i < |items| ==> Consistent(items[i], caseSensitive)
    case Object(members) =>
      forall i :: 0 <= i < |members| ==>
        Consistent(members[i].value, caseSensitive) && Agrees(members, members[i], caseSensitive)
    case _ => true
  }

  predicate Agrees(members: seq<Member>, m: Member, caseSensitive: bool) {
    var c := CanonicalMembers(members, caseSensitive);
    var k := Key(m.key, caseSensitive);
    k in c && c[k] == Canonical(m.value, caseSensitive)
  }

  /** No object has two members whose keys are taken for the same. */
  predicate DistinctKeys(v: Json, caseSensitive: bool)
    decreases v, 0
  {
    match v
    case Array(items) => forall i :: 0 <= i < |items| ==> DistinctKeys(items[i], caseSensitive)
    case Object(members) =>
      && (forall i :: 0 <= i < |members| ==> DistinctKeys(members[i].value, caseSensitive))
      && (forall i, j :: 0 <= i < j < |members| ==>
         Key(members[i].key, caseSensitive) != Key(members[j].key, caseSensitive))
    case _ => true
  }

  /** The canonical map is what lookups see. */
  lemma {:induction false} LookupCanonical(members: seq<Member>, key: Text, caseSensitive: bool)
    ensures var c := CanonicalMembers(members, caseSensitive);
            match Lookup(members, key, caseSensitive)
            case None => Key(key, caseSensitive) !in c
            case Some(v) => Key(key, caseSensitive) in c && c[Key(key, caseSensitive)] == Canonical(v, caseSensitive)
  {
    if members != [] {
      LookupCanonical(members[1..], key, caseSensitive);
    }
  }

  lemma {:induction false} CanonicalKeys(members: seq<Member>, k: Text, caseSensitive: bool)
    ensures k in CanonicalMembers(members, caseSensitive) <==>
            exists i :: 0 <= i < |members| && Key(members[i].key, caseSensitive) == k
  {
    if members != [] {
      CanonicalKeys(members[1..], k, caseSensitive);
      assert forall i :: 0 <= i < |members[1..]| ==> members[1..][i] == members[i + 1];
      if k in CanonicalMembers(members[1..], caseSensitive) {
        var i :| 0 <= i < |members[1..]| && Key(members[1..][i].key, caseSensitive) == k;
        assert Key(members[i + 1].key, caseSensitive) == k;
      }
    }
  }

  // ---- what Compare decides -----------------------------------------------------

  /** cJSON_Compare, for all trees: both are consistent, and they are equal once objects are
      read as maps. */
  lemma {:induction false} CompareDecidesEquality(a: Json, b: Json, caseSensitive: bool)
    ensures Compare(a, b, caseSensitive) <==>
            Consistent(a, caseSensitive) && Consistent(b, caseSensitive)
              && Canonical(a, caseSensitive) == Canonical(b, caseSensitive)
    decreases Height(a) + Height(b), 0, 0
  {
    if a.Array? && b.Array? {
      ItemsDecide(a.items, b.items, caseSensitive);
    } else if a.Object? && b.Object? {
      MembersDecide(a.members, b.members, caseSensitive);
      MembersDecide(b.members, a.members, caseSensitive);
      ObjectsDecide(a.members, b.members, caseSensitive);
    }
  }

  lemma ConsistentTail(xs: seq<Json>, caseSensitive: bool)
    requires xs != []
    ensures Consistent(Array(xs), caseSensitive) <==>
            Consistent(xs[0], caseSensitive) && Consistent(Array(xs[1..]), caseSensitive)
  {
    if Consistent(xs[0], caseSensitive) && Consistent(Array(xs[1..]), caseSensitive) {
      forall i | 0 <= i < |xs|
        ensures Consistent(xs[i], caseSensitive)
      {
        if i > 0 { assert xs[i] == xs[1..][i - 1]; }
      }
    }
  }

  lemma {:induction false} ItemsDecide(xs: seq<Json>, ys: seq<Json>, caseSensitive: bool)
    ensures CompareItems(xs, ys, caseSensitive) <==>
            Consistent(Array(xs), caseSensitive) && Consistent(Array(ys), caseSensitive)
              && CanonicalItems(xs, caseSensitive) == CanonicalItems(ys, caseSensitive)
    decreases HeightOfItems(xs) + HeightOfItems(ys), 1, |xs|
  {
    if xs != [] && ys != [] {
      var cx, cy := CanonicalItems(xs, caseSensitive), CanonicalItems(ys, caseSensitive);
      ConsistentTail(xs, caseSensitive);
      ConsistentTail(ys, caseSensitive);
      CompareDecidesEquality(xs[0], ys[0], caseSensitive);
      ItemsDecide(xs[1..], ys[1..], caseSensitive);
      assert cx[0] == Canonical(xs[0], caseSensitive) && cx[1..] == CanonicalItems(xs[1..], caseSensitive);
      assert cy[0] == Canonical(ys[0], caseSensitive) && cy[1..] == CanonicalItems(ys[1..], caseSensitive);
      assert cx == [cx[0]] + cx[1..] && cy == [cy[0]] + cy[1..];
    } else {
      assert |CanonicalItems(xs, caseSensitive)| == |xs| && |CanonicalItems(ys, caseSensitive)| == |ys|;
    }
  }

  /** m's counterpart among ns exists and equals it. */
  predicate Found(m: Member, ns: seq<Member>, caseSensitive: bool) {
    var other := Lookup(ns, m.key, caseSensitive);
    other.Some? && Consistent(m.value, caseSensitive) && Consistent(other.value, caseSensitive)
      && Agrees(ns, m, caseSensitive)
  }

  predicate AllFound(ms: seq<Member>, ns: seq<Member>, caseSensitive: bool) {
    forall i :: 0 <= i < |ms| ==> Found(ms[i], ns, caseSensitive)
  }

  lemma {:induction false} MembersDecide(ms: seq<Member>, ns: seq<Member>, caseSensitive: bool)
    ensures CompareMembers(ms, ns, caseSensitive) <==> AllFound(ms, ns, caseSensitive)
    decreases HeightOfMembers(ms) + HeightOfMembers(ns), 1, |ms|
  {
    if ms != [] {
      LookupCanonical(ns, ms[0].key, caseSensitive);
      var other := Lookup(ns, ms[0].key, caseSensitive);
      if other.Some? {
        var i := LookupFinds(ns, ms[0].key, caseSensitive);
        MemberHeight(ns, i);
        CompareDecidesEquality(ms[0].value, other.value, caseSensitive);
        MembersDecide(ms[1..], ns, caseSensitive);
      }
    }
  }

  /** A member that is found on the other side agrees with its own side. */
  lemma FoundAgrees(ms: seq<Member>, ns: seq<Member>, i: nat, caseSensitive: bool)
    requires AllFound(ms, ns, caseSensitive) && i < |ms|
    ensures Agrees(ms, ms[i], caseSensitive)
  {
    var k := Key(ms[i].key, caseSensitive);
    CanonicalKeys(ms, k, caseSensitive);
    LookupCanonical(ms, ms[i].key, caseSensitive);
    var j := LookupFinds(ms, ms[i].key, caseSensitive);
    assert Found(ms[j], ns, caseSensitive) && Found(ms[i], ns, caseSensitive);
  }

  lemma FoundWithin(ms: seq<Member>, ns: seq<Member>, k: Text, caseSensitive: bool)
    requires AllFound(ms, ns, caseSensitive) && k in CanonicalMembers(ms, caseSensitive)
    ensures k in CanonicalMembers(ns, caseSensitive)
    ensures CanonicalMembers(ns, caseSensitive)[k] == CanonicalMembers(ms, caseSensitive)[k]
  {
    CanonicalKeys(ms, k, caseSensitive);
    var i :| 0 <= i < |ms| && Key(ms[i].key, caseSensitive) == k;
    FoundAgrees(ms, ns, i, caseSensitive);
    assert Found(ms[i], ns, caseSensitive);
  }

  lemma SameMapFound(ms: seq<Member>, ns: seq<Member>, caseSensitive: bool)
    requires Consistent(Object(ms), caseSensitive) && Consistent(Object(ns), caseSensitive)
    requires CanonicalMembers(ms, caseSensitive) == CanonicalMembers(ns, caseSensitive)
    ensures AllFound(ms, ns, caseSensitive)
  {
    forall i | 0 <= i < |ms|
      ensures Found(ms[i], ns, caseSensitive)
    {
      assert Agrees(ms, ms[i], caseSensitive);
      LookupCanonical(ns, ms[i].key, caseSensitive);
      var j := LookupFinds(ns, ms[i].key, caseSensitive);
      assert Consistent(ns[j].value, caseSensitive);
    }
  }

  lemma ObjectsDecide(ms: seq<Member>, ns: seq<Member>, caseSensitive: bool)
    ensures AllFound(ms, ns, caseSensitive) && AllFound(ns, ms, caseSensitive)
            <==>
            Consistent(Object(ms), caseSensitive) && Consistent(Object(ns), caseSensitive)
              && CanonicalMembers(ms, caseSensitive) == CanonicalMembers(ns, caseSensitive)
  {
    if AllFound(ms, ns, caseSensitive) && AllFound(ns, ms, caseSensitive) {
      forall i | 0 <= i < |ms| ensures Agrees(ms, ms[i], caseSensitive) && Found(ms[i], ns, caseSensitive) {
        FoundAgrees(ms, ns, i, caseSensitive);
      }
      forall j | 0 <= j < |ns| ensures Agrees(ns, ns[j], caseSensitive) && Found(ns[j], ms, caseSensitive) {
        FoundAgrees(ns, ms, j, caseSensitive);
      }
      var cm, cn := CanonicalMembers(ms, caseSensitive), CanonicalMembers(ns, caseSensitive);
      forall k | k in cm ensures k in cn && cn[k] == cm[k] {
        FoundWithin(ms, ns, k, caseSensitive);
      }
      forall k | k in cn ensures k in cm {
        FoundWithin(ns, ms, k, caseSensitive);
      }
      assert cm == cn;
    } else if Consistent(Object(ms), caseSensitive) && Consistent(Object(ns), caseSensitive)
      && CanonicalMembers(ms, caseSensitive) == CanonicalMembers(ns, caseSensitive) {
      SameMapFound(ms, ns, caseSensitive);
      SameMapFound(ns, ms, caseSensitive);
    }
  }

  // ---- what follows ---------------------------------------------------------------

  /** A tree whose keys are distinct is consistent. */
  lemma {:induction false} DistinctKeysConsistent(v: Json, caseSensitive: bool)
    requires DistinctKeys(v, caseSensitive)
    ensures Consistent(v, caseSensitive)
    decreases v
  {
    match v
    case Array(items) =>
      forall i | 0 <= i < |items| ensures Consistent(items[i], caseSensitive) {
        DistinctKeysConsistent(items[i], caseSensitive);
      }
    case Object(members) =>
      forall i | 0 <= i < |members|
        ensures Consistent(members[i].value, caseSensitive) && Agrees(members, members[i], caseSensitive)
      {
        DistinctKeysConsistent(members[i].value, caseSensitive);
        var k := Key(members[i].key, caseSensitive);
        CanonicalKeys(members, k, caseSensitive);
        LookupCanonical(members, members[i].key, caseSensitive);
        var j := LookupFinds(members, members[i].key, caseSensitive);
        assert j == i;
      }
    case _ =>
  }

  /** On trees whose keys are distinct under the chosen case rule, comparing decides equality
      with objects read as maps. */
  lemma CompareOnDistinctKeys(a: Json, b: Json, caseSensitive: bool)
    requires DistinctKeys(a, caseSensitive) && DistinctKeys(b, caseSensitive)
    ensures Compare(a, b, caseSensitive) <==> Canonical(a, caseSensitive) == Canonical(b, caseSensitive)
  {
    DistinctKeysConsistent(a, caseSensitive);
    DistinctKeysConsistent(b, caseSensitive);
    CompareDecidesEquality(a, b, caseSensitive);
  }

  /** Comparing is symmetric and transitive on all trees; a tree equals a copy of itself
      exactly when it is consistent. */
  lemma CompareIsEquivalence(a: Json, b: Json, c: Json, caseSensitive: bool)
    ensures Compare(a, a, caseSensitive) <==> Consistent(a, caseSensitive)
    ensures Compare(a, b, caseSensitive) == Compare(b, a, caseSensitive)
    ensures Compare(a, b, caseSensitive) && Compare(b, c, caseSensitive) ==> Compare(a, c, caseSensitive)
  {
    CompareDecidesEquality(a, a, caseSensitive);
    CompareDecidesEquality(a, b, caseSensitive);
    CompareDecidesEquality(b, a, caseSensitive);
    CompareDecidesEquality(b, c, caseSensitive);
    CompareDecidesEquality(a, c, caseSensitive);
  }

  /** An object with two values under one key is not equal to its own copy. */
  lemma DuplicateKeysBreakReflexivity(key: Text, caseSensitive: bool)
    ensures var v := Object([Member(key, True), Member(key, False)]); !Compare(v, v, caseSensitive)
  {
    var members := [Member(key, True), Member(key, False)];
    assert members[1..] == [Member(key, False)];
    assert CanonicalMembers(members, caseSensitive)[Key(key, caseSensitive)] == Canonical(True, caseSensitive) == CTrue;
    assert !Agrees(members, members[1], caseSensitive);
    CompareDecidesEquality(Object(members), Object(members), caseSensitive);
  }
}
