/** When comparing calls two trees equal, said without lookups: member by member, whatever the order. */
module TreeEquality {
  import opened Bytes
  import opened JsonTree
  import opened TreeCompare
  import opened Wrappers

  predicate Letter(b: byte) { 65 <= b <= 90 || 97 <= b <= 122 }

  /** The same byte or, if case does not matter, the small and the capital form of a letter. */
  predicate SameByte(a: byte, b: byte, caseSensitive: bool) {
    a == b || (!caseSensitive && Letter(a) && Letter(b) && (a == b + 32 || b == a + 32))
  }

  predicate SameKey(s: Text, t: Text, caseSensitive: bool) {
    |s| == |t| && forall i :: 0 <= i < |s| ==> SameByte(s[i], t[i], caseSensitive)
  }

  /** Equal trees: arrays element by element, objects member by member in any order. */
  predicate Alike(a: Json, b: Json, caseSensitive: bool)
    decreases a
  {
    match a
    case Number(m) => b == Number(m)
    case String(s) => b == String(s)
    case Array(xs) =>
      && b.Array? && |b.items| == |xs|
      && forall i :: 0 <= i < |xs| ==> Alike(xs[i], b.items[i], caseSensitive)
    case Object(ms) =>
      && b.Object?
      && (forall i :: 0 <= i < |ms| ==> Partner(ms[i], b.members, caseSensitive))
      && (forall j :: 0 <= j < |b.members| ==> Partnered(ms, b.members[j], caseSensitive))
    case _ => a == b
  }

  /** Among ns there is a member with the same key and an equal value. */
  predicate Partner(m: Member, ns: seq<Member>, caseSensitive: bool)
    decreases m
  {
    exists j :: 0 <= j < |ns| && SameKey(m.key, ns[j].key, caseSensitive) && Alike(m.value, ns[j].value, caseSensitive)
  }

  predicate Partnered(ms: seq<Member>, n: Member, caseSensitive: bool)
    decreases ms
  {
    exists i :: 0 <= i < |ms| && SameKey(ms[i].key, n.key, caseSensitive) && Alike(ms[i].value, n.value, caseSensitive)
  }

  /** No object has two members whose keys are the same. */
  predicate Distinct(v: Json, caseSensitive: bool)
    decreases v
  {
    match v
    case Array(items) => forall i :: 0 <= i < |items| ==> Distinct(items[i], caseSensitive)
    case Object(members) =>
      && (forall i :: 0 <= i < |members| ==> Distinct(members[i].value, caseSensitive))
      && (forall i, j :: 0 <= i < j < |members| ==> !SameKey(members[i].key, members[j].key, caseSensitive))
    case _ => true
  }

  // ---- keys ----------------------------------------------------------------------------------------

  lemma {:induction false} LowerAt(s: Text, i: nat)
    requires i < |s|
    ensures Lower(s)[i] == ToLower(s[i])
  {
    if i > 0 {
      LowerAt(s[1..], i - 1);
    }
  }

  lemma LowerByte(a: byte, b: byte)
    ensures ToLower(a) == ToLower(b) <==> SameByte(a, b, false)
  {
  }

  /** Keys are taken for the same exactly when they are the same up to the case of letters. */
  lemma KeyMeans(s: Text, t: Text, caseSensitive: bool)
    ensures Key(s, caseSensitive) == Key(t, caseSensitive) <==> SameKey(s, t, caseSensitive)
  {
    hide ToLower, Lower;
    if caseSensitive {
      assert SameKey(s, t, true) ==> s == t;
    } else if |s| == |t| {
      forall i | 0 <= i < |s| ensures Lower(s)[i] == Lower(t)[i] <==> SameByte(s[i], t[i], false) {
        LowerAt(s, i);
        LowerAt(t, i);
        LowerByte(s[i], t[i]);
      }
    }
  }

  // ---- lookups -----------------------------------------------------------------------------------

  /** Among distinct keys a lookup finds the one member there is. */
  lemma {:induction false} LookupMeans(members: seq<Member>, key: Text, j: nat, caseSensitive: bool)
    requires forall i, k :: 0 <= i < k < |members| ==> !SameKey(members[i].key, members[k].key, caseSensitive)
    requires j < |members| && SameKey(key, members[j].key, caseSensitive)
    ensures Lookup(members, key, caseSensitive) == Some(members[j].value)
  {
    hide Key, SameKey;
    KeyMeans(members[0].key, key, caseSensitive);
    KeyMeans(key, members[j].key, caseSensitive);
    KeyMeans(members[0].key, members[j].key, caseSensitive);
    if j > 0 {
      LookupMeans(members[1..], key, j - 1, caseSensitive);
    }
  }

  lemma LookupMeets(members: seq<Member>, key: Text, caseSensitive: bool) returns (j: nat)
    requires Lookup(members, key, caseSensitive).Some?
    ensures j < |members| && SameKey(key, members[j].key, caseSensitive)
    ensures Lookup(members, key, caseSensitive) == Some(members[j].value)
  {
    hide Key, SameKey;
    j := LookupFinds(members, key, caseSensitive);
    KeyMeans(key, members[j].key, caseSensitive);
  }

  // ---- what comparing decides ------------------------------------------------------------------------

  lemma CompareSwaps(a: Json, b: Json, caseSensitive: bool)
    ensures Compare(a, b, caseSensitive) == Compare(b, a, caseSensitive)
  {
    CompareIsEquivalence(a, b, a, caseSensitive);
  }

  lemma SameKeySwaps(s: Text, t: Text, caseSensitive: bool)
    ensures SameKey(s, t, caseSensitive) == SameKey(t, s, caseSensitive)
  {
  }

  /** On trees with distinct keys comparing decides exactly that. */
  lemma {:induction false} CompareMeansAlike(a: Json, b: Json, caseSensitive: bool)
    requires Distinct(a, caseSensitive) && Distinct(b, caseSensitive)
    ensures Compare(a, b, caseSensitive) <==> Alike(a, b, caseSensitive)
    decreases a, 1
  {
    hide SameKey, CompareItems, CompareMembers, Partner, Partnered;
    match a
    case Array(xs) =>
      if b.Array? && |b.items| == |xs| {
        ItemsMeanAlike(xs, b.items, 0, caseSensitive);
        CompareItemsFrom(xs, b.items, 0, caseSensitive);
      } else if b.Array? {
        ItemsOfOneLength(xs, b.items, 0, caseSensitive);
        CompareItemsFrom(xs, b.items, 0, caseSensitive);
      }
    case Object(ms) =>
      if b.Object? {
        ObjectsMeanAlike(ms, b.members, caseSensitive);
      }
    case _ =>
  }

  lemma MeetsPartner(m: Member, ns: seq<Member>, caseSensitive: bool)
    requires forall j :: 0 <= j < |ns| ==>
               (Compare(m.value, ns[j].value, caseSensitive) <==> Alike(m.value, ns[j].value, caseSensitive))
    ensures Meets(m, ns, caseSensitive) <==> Partner(m, ns, caseSensitive)
  {
    hide Compare, Alike, SameKey;
  }

  lemma MeetsPartnered(ms: seq<Member>, n: Member, caseSensitive: bool)
    requires forall i :: 0 <= i < |ms| ==>
               (Compare(n.value, ms[i].value, caseSensitive) <==> Alike(ms[i].value, n.value, caseSensitive))
    ensures Meets(n, ms, caseSensitive) <==> Partnered(ms, n, caseSensitive)
  {
    hide Compare, Alike, SameKey;
    forall i | 0 <= i < |ms|
      ensures SameKey(ms[i].key, n.key, caseSensitive) == SameKey(n.key, ms[i].key, caseSensitive)
    {
      SameKeySwaps(ms[i].key, n.key, caseSensitive);
    }
  }

  lemma {:induction false} ObjectsMeanAlike(ms: seq<Member>, ns: seq<Member>, caseSensitive: bool)
    requires Distinct(Object(ms), caseSensitive) && Distinct(Object(ns), caseSensitive)
    ensures CompareMembers(ms, ns, caseSensitive) && CompareMembers(ns, ms, caseSensitive) <==>
            (forall i :: 0 <= i < |ms| ==> Partner(ms[i], ns, caseSensitive))
            && (forall j :: 0 <= j < |ns| ==> Partnered(ms, ns[j], caseSensitive))
    decreases ms, 0
  {
    hide SameKey, CompareMembers, Compare, Alike, Meets, Partner, Partnered;
    MembersMeet(ms, ns, 0, caseSensitive);
    MembersMeet(ns, ms, 0, caseSensitive);
    assert ms[0..] == ms && ns[0..] == ns;
    forall i | 0 <= i < |ms| ensures Meets(ms[i], ns, caseSensitive) <==> Partner(ms[i], ns, caseSensitive) {
      forall j | 0 <= j < |ns|
        ensures Compare(ms[i].value, ns[j].value, caseSensitive) <==> Alike(ms[i].value, ns[j].value, caseSensitive)
      {
        CompareMeansAlike(ms[i].value, ns[j].value, caseSensitive);
      }
      MeetsPartner(ms[i], ns, caseSensitive);
    }
    forall j | 0 <= j < |ns| ensures Meets(ns[j], ms, caseSensitive) <==> Partnered(ms, ns[j], caseSensitive) {
      forall i | 0 <= i < |ms|
        ensures Compare(ns[j].value, ms[i].value, caseSensitive) <==> Alike(ms[i].value, ns[j].value, caseSensitive)
      {
        CompareMeansAlike(ms[i].value, ns[j].value, caseSensitive);
        CompareSwaps(ms[i].value, ns[j].value, caseSensitive);
      }
      MeetsPartnered(ms, ns[j], caseSensitive);
    }
  }

  lemma {:induction false} ItemsMeanAlike(xs: seq<Json>, ys: seq<Json>, i: nat, caseSensitive: bool)
    requires i <= |xs| == |ys|
    requires forall k :: 0 <= k < |xs| ==> Distinct(xs[k], caseSensitive) && Distinct(ys[k], caseSensitive)
    ensures CompareItems(xs[i..], ys[i..], caseSensitive) <==>
            forall k :: i <= k < |xs| ==> Alike(xs[k], ys[k], caseSensitive)
    decreases xs, 0, |xs| - i
  {
    hide Alike, Compare, CompareItems, Distinct;
    CompareItemsFrom(xs, ys, i, caseSensitive);
    if i < |xs| {
      CompareMeansAlike(xs[i], ys[i], caseSensitive);
      ItemsMeanAlike(xs, ys, i + 1, caseSensitive);
    }
  }

  lemma {:induction false} ItemsOfOneLength(xs: seq<Json>, ys: seq<Json>, i: nat, caseSensitive: bool)
    requires i <= |xs| && i <= |ys| && |xs| != |ys|
    ensures !CompareItems(xs[i..], ys[i..], caseSensitive)
    decreases |xs| - i
  {
    hide Compare, CompareItems;
    CompareItemsFrom(xs, ys, i, caseSensitive);
    if i < |xs| && i < |ys| {
      ItemsOfOneLength(xs, ys, i + 1, caseSensitive);
    }
  }

  /** Each member from i on has its counterpart. */
  lemma {:induction false} MembersMeet(ms: seq<Member>, ns: seq<Member>, i: nat, caseSensitive: bool)
    requires i <= |ms|
    requires forall j, k :: 0 <= j < k < |ns| ==> !SameKey(ns[j].key, ns[k].key, caseSensitive)
    ensures CompareMembers(ms[i..], ns, caseSensitive) <==>
            forall k :: i <= k < |ms| ==> Meets(ms[k], ns, caseSensitive)
    decreases |ms| - i
  {
    hide Compare, CompareMembers, SameKey, Lookup;
    CompareMembersFrom(ms, ns, i, caseSensitive);
    if i < |ms| {
      MembersMeet(ms, ns, i + 1, caseSensitive);
      if Lookup(ns, ms[i].key, caseSensitive).Some? {
        var j := LookupMeets(ns, ms[i].key, caseSensitive);
      }
      if Meets(ms[i], ns, caseSensitive) {
        var j :| 0 <= j < |ns| && SameKey(ms[i].key, ns[j].key, caseSensitive)
                 && Compare(ms[i].value, ns[j].value, caseSensitive);
        LookupMeans(ns, ms[i].key, j, caseSensitive);
      }
    }
  }

  predicate Meets(m: Member, ns: seq<Member>, caseSensitive: bool) {
    exists j :: 0 <= j < |ns| && SameKey(m.key, ns[j].key, caseSensitive)
                && Compare(m.value, ns[j].value, caseSensitive)
  }
}
