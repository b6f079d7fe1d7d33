/** Whole trees of nodes: deep copy and comparison. */
module NodeTree {
  import opened Bytes
  import opened JsonTree
  import opened TreeCompare
  import opened NodeList

  /** A tree cut down to its root. */
  function Childless(v: Json): Json {
    if v.Array? then Array([]) else if v.Object? then Object([]) else v
  }

  /** The children copied so far: valid, sharing nothing, and alike the first originals. */
  ghost predicate Copying(copy: Node, kids: seq<Node>, originals: seq<Node>, tail: Node?)
    reads copy, kids, set k, n | k in kids && n in k.repr :: n, originals
  {
    && Linked(copy, kids) && |kids| <= |originals|
    && tail == (if kids == [] then null else kids[|kids| - 1])
    && (forall j {:trigger kids[j]} :: 0 <= j < |kids| ==>
          kids[j].Valid() && kids[j] in kids[j].repr && copy !in kids[j].repr && kids[j].tree == originals[j].tree &&
            kids[j].name == originals[j].name)
    && (forall j, k {:trigger kids[j], kids[k]} :: 0 <= j < k < |kids| ==> kids[j].repr !! kids[k].repr)
  }

  /** What a valid node is made of. */
  lemma ValidParts(n: Node)
    requires n.Valid()
    ensures n in n.repr && Linked(n, n.kids) && n.Spells(n.kids, n.tree)
    ensures forall i {:trigger n.kids[i]} :: 0 <= i < |n.kids| ==>
              n.kids[i].Valid() && n.kids[i] in n.repr && n.kids[i].repr <= n.repr && n !in n.kids[i].repr
    ensures forall i, j {:trigger n.kids[i], n.kids[j]} :: 0 <= i < j < |n.kids| ==> n.kids[i].repr !! n.kids[j].repr
  {
  }

  lemma ValidWhole(n: Node)
    requires n in n.repr && (forall i {:trigger n.kids[i]} :: 0 <= i < |n.kids| ==> n.kids[i] in n.repr - {n})
    requires Linked(n, n.kids) && n.Spells(n.kids, n.tree)
    requires forall i {:trigger n.kids[i]} :: 0 <= i < |n.kids| ==>
               n.kids[i].repr <= n.repr && n !in n.kids[i].repr && n.kids[i].Valid()
    requires forall i, j {:trigger n.kids[i], n.kids[j]} :: 0 <= i < j < |n.kids| ==> n.kids[i].repr !! n.kids[j].repr
    ensures n.Valid()
  {
  }

  /** The next copied child goes behind the last one. */
  method Chain(copy: Node, tail: Node?, newchild: Node, ghost kids: seq<Node>, ghost originals: seq<Node>)
    requires Copying(copy, kids, originals, tail) && |kids| < |originals|
    requires newchild.Valid() && newchild in newchild.repr && newchild.next == null && newchild.prev == null
    requires newchild.tree == originals[|kids|].tree && newchild.name == originals[|kids|].name
    requires copy !in newchild.repr && newchild != copy
    requires forall j {:trigger kids[j]} :: 0 <= j < |kids| ==> kids[j].repr !! newchild.repr && kids[j] !in originals
    requires newchild !in originals && copy !in originals
    modifies copy`child, kids`next, newchild`prev
    ensures Copying(copy, kids + [newchild], originals, newchild)
  {
    hide Node.Valid;
    if tail != null {
      tail.next := newchild;
      newchild.prev := tail;
    } else {
      copy.child := newchild;
    }
  }

  lemma {:induction false} SameTrees(kids: seq<Node>, originals: seq<Node>)
    requires |kids| == |originals|
    requires forall j {:trigger kids[j]} :: 0 <= j < |kids| ==>
             kids[j].tree == originals[j].tree && kids[j].name == originals[j].name
    ensures Trees(kids) == Trees(originals) && Members(kids) == Members(originals)
  {
    if kids != [] {
      SameTrees(kids[..|kids| - 1], originals[..|kids| - 1]);
    }
  }

  /** The copied children become the copy's own. */
  ghost method Adopt(copy: Node, item: Node, kids: seq<Node>, tail: Node?, below: set<Node>)
    requires item.Valid() && copy !in item.repr && Copying(copy, kids, item.kids, tail) && |kids| == |item.kids|
    requires copy.kind == item.kind && copy.valuestring == item.valuestring && copy.valuedouble == item.valuedouble
    requires copy !in below && forall i {:trigger kids[i]} :: 0 <= i < |kids| ==> kids[i].repr <= below
    modifies copy`kids, copy`repr, copy`tree
    ensures copy.Valid() && copy.tree == item.tree && copy.repr == {copy} + below
  {
    hide Node.Valid, Linked, Trees, Members;
    ValidParts(item);
    SameTrees(kids, item.kids);
    assert copy !in kids && copy !in item.kids;
    copy.kids, copy.repr, copy.tree := kids, {copy} + below, item.tree;
    ValidWhole(copy);
  }

  /** The loop over the children: each is copied with everything below it. */
  method CopyChildren(item: Node, copy: Node) returns (ghost kids: seq<Node>, ghost last: Node?, ghost below: set<Node>)
    requires item.Valid() && copy !in item.repr && copy.child == null
    modifies copy`child
    ensures Copying(copy, kids, item.kids, last) && |kids| == |item.kids|
    ensures fresh(below) && copy !in below && forall j {:trigger kids[j]} :: 0 <= j < |kids| ==> kids[j].repr <= below
    decreases item.repr, 0
  {
    hide Node.Valid, Node.Spells;
    ValidParts(item);
    var child := item.child;
    var tail: Node? := null;
    kids, below := [], {};
    ghost var i := 0;
    while child != null
      invariant 0 <= i <= |item.kids| && child == if i < |item.kids| then item.kids[i] else null
      invariant |kids| == i && Copying(copy, kids, item.kids, tail)
      invariant fresh(below) && copy !in below
      invariant forall j {:trigger kids[j]} :: 0 <= j < i ==> kids[j].repr <= below
      decreases |item.kids| - i
    {
      var newchild := Duplicate(child, true);
      ValidParts(newchild);
      Chain(copy, tail, newchild, kids, item.kids);
      tail := newchild;
      kids, below := kids + [newchild], below + newchild.repr;
      i := i + 1;
      child := child.next;
    }
    last := tail;
  }

  lemma ChildlessValid(copy: Node, item: Node)
    requires item.Valid() && copy.child == null && copy.kids == [] && copy.repr == {copy} &&
             copy.tree == Childless(item.tree)
    requires copy.kind == item.kind && copy.valuestring == item.valuestring && copy.valuedouble == item.valuedouble
    ensures copy.Valid()
  {
  }

  method CopyFields(item: Node) returns (copy: Node)
    ensures fresh(copy) && copy.next == null && copy.prev == null && copy.child == null && copy.kids == [] &&
            copy.repr == {copy}
    ensures copy.kind == item.kind && copy.valuestring == item.valuestring && copy.valuedouble == item.valuedouble &&
            copy.name == item.name
  {
    copy := new Node();
    copy.kind, copy.valuestring, copy.valuedouble, copy.name := item.kind, item.valuestring, item.valuedouble,
      item.name;
  }

  /** cJSON_Duplicate: the copy shares no node with anything and spells the same tree. */
  method Duplicate(item: Node, recurse: bool) returns (copy: Node)
    requires item.Valid()
    ensures copy.Valid() && fresh(copy.repr) && copy.next == null && copy.prev == null
    ensures copy.name == item.name && copy.tree == if recurse then item.tree else Childless(item.tree)
    decreases item.repr, 1
  {
    hide Node.Valid, Linked, Copying;
    ValidParts(item);
    copy := CopyFields(item);
    if !recurse {
      copy.tree := Childless(item.tree);
      ChildlessValid(copy, item);
      return;
    }

    ghost var kids, last, below := CopyChildren(item, copy);
    Adopt(copy, item, kids, last, below);
  }

  // ---- comparison -------------------------------------------------------------------

  lemma {:induction false} TreesAt(kids: seq<Node>, i: nat)
    requires i < |kids|
    ensures Trees(kids)[i] == kids[i].tree && Members(kids)[i] == Member(kids[i].name, kids[i].tree)
  {
    if i < |kids| - 1 {
      TreesAt(kids[..|kids| - 1], i);
    }
  }

  /** get_object_item: the first child whose name matches. */
  method GetObjectItem(owner: Node, name: Text, caseSensitive: bool) returns (item: Node?)
    requires owner.Valid()
    ensures match Lookup(Members(owner.kids), name, caseSensitive)
            case None => item == null
            case Some(v) => item != null && item in owner.kids && item.tree == v
  {
    hide Node.Valid, Node.Spells, Key;
    ValidParts(owner);
    ghost var members := Members(owner.kids);
    item := owner.child;
    ghost var i := 0;
    assert members[0..] == members;
    while item != null && Key(item.name, caseSensitive) != Key(name, caseSensitive)
      invariant 0 <= i <= |members| && item == if i < |members| then owner.kids[i] else null
      invariant Lookup(members, name, caseSensitive) == Lookup(members[i..], name, caseSensitive)
      decreases |members| - i
    {
      TreesAt(owner.kids, i);
      assert members[i..][1..] == members[i + 1..];
      item := item.next;
      i := i + 1;
    }
    if item != null {
      TreesAt(owner.kids, i);
    }
  }

  /** Heights fall from a node to its children. */
  lemma KidHeight(n: Node, i: nat)
    requires n.Valid() && i < |n.kids|
    ensures Height(n.kids[i].tree) < Height(n.tree)
  {
    TreesAt(n.kids, i);
    if n.kind.ArrayKind? {
      ItemHeight(Trees(n.kids), i);
    } else {
      MemberHeight(Members(n.kids), i);
    }
  }

  /** Child i of a node, as a walk over the list sees it. */
  lemma Walk(n: Node, i: nat)
    requires n.Valid() && i <= |n.kids|
    ensures n.child == if n.kids == [] then null else n.kids[0]
    ensures |Trees(n.kids)| == |Members(n.kids)| == |n.kids|
    ensures i < |n.kids| ==>
              && n.kids[i].next == (if i + 1 < |n.kids| then n.kids[i + 1] else null)
              && Trees(n.kids)[i] == n.kids[i].tree && Members(n.kids)[i] == Member(n.kids[i].name, n.kids[i].tree)
    ensures i < |n.kids| ==> Height(n.kids[i].tree) < Height(n.tree)
  {
    ValidParts(n);
    if i < |n.kids| {
      TreesAt(n.kids, i);
      KidHeight(n, i);
    }
  }

  /** Two nodes that share no node below them, or one of which spells a consistent tree. */
  ghost predicate Comparable(a: Node, b: Node, caseSensitive: bool)
    reads a`repr, a`tree, b`repr, b`tree
  {
    a.repr !! b.repr || Consistent(a.tree, caseSensitive) || Consistent(b.tree, caseSensitive)
  }

  lemma ConsistentKid(n: Node, i: nat, caseSensitive: bool)
    requires n.Valid() && i < |n.kids| && Consistent(n.tree, caseSensitive)
    ensures Consistent(n.kids[i].tree, caseSensitive)
  {
    hide Trees, Members;
    TreesAt(n.kids, i);
    if n.kind.ArrayKind? {
      assert Trees(n.kids)[i] == n.kids[i].tree;
    } else {
      assert Members(n.kids)[i].value == n.kids[i].tree;
    }
  }

  /** Children of comparable nodes are comparable, and where they are the same node they spell
      trees that compare equal. */
  lemma ComparableBelow(a: Node, b: Node, i: nat, j: nat, caseSensitive: bool)
    requires a.Valid() && b.Valid() && i < |a.kids| && j < |b.kids|
    ensures a.kids[i].Valid() && b.kids[j].Valid()
    ensures Comparable(a, b, caseSensitive) ==>
              && Comparable(a.kids[i], b.kids[j], caseSensitive)
              && (a.kids[i] == b.kids[j] ==> Compare(a.kids[i].tree, b.kids[j].tree, caseSensitive))
  {
    hide Node.Valid, Consistent, Compare, Linked;
    ValidParts(a);
    ValidParts(b);
    ValidParts(a.kids[i]);
    if Consistent(a.tree, caseSensitive) {
      ConsistentKid(a, i, caseSensitive);
    }
    if Consistent(b.tree, caseSensitive) {
      ConsistentKid(b, j, caseSensitive);
    }
    CompareDecidesEquality(a.kids[i].tree, b.kids[j].tree, caseSensitive);
  }

  /** cJSON_Compare: a node is equal to itself, and two nodes are compared by what they spell.
      Only where inconsistent trees share a node below may they be equal and spell trees that are
      not. */
  method CompareNodes(a: Node?, b: Node?, caseSensitive: bool) returns (equal: bool)
    requires a != null ==> a.Valid()
    requires b != null ==> b.Valid()
    ensures a == null || b == null ==> !equal
    ensures a != null && a == b ==> equal
    ensures a != null && b != null && a != b && Comparable(a, b, caseSensitive) ==>
              equal == Compare(a.tree, b.tree, caseSensitive)
    decreases if a == null || b == null then 0 else Height(a.tree) + Height(b.tree), 2
  {
    hide Node.Valid, Comparable, CompareItems, CompareMembers, Trees, Members, Linked;
    if a == null || b == null {
      return false;
    }
    ValidParts(a);
    ValidParts(b);
    if a.kind != b.kind {
      return false;
    }
    if a == b {
      return true;
    }
    match a.kind {
      case NumberKind => return a.valuedouble == b.valuedouble;
      case StringKind => return a.valuestring == b.valuestring;
      case ArrayKind => equal := CompareArrays(a, b, caseSensitive);
      case ObjectKind =>
        equal := CompareObjects(a, b, caseSensitive);
        if equal {
          ComparableSwapped(a, b, caseSensitive);
          equal := CompareObjects(b, a, caseSensitive);
        }
      case _ => return true;
    }
  }

  lemma ComparableSwapped(a: Node, b: Node, caseSensitive: bool)
    ensures Comparable(a, b, caseSensitive) <==> Comparable(b, a, caseSensitive)
  {
  }

  lemma FreshComparable(a: Node, b: Node, caseSensitive: bool)
    requires a.repr !! b.repr
    ensures Comparable(a, b, caseSensitive)
  {
  }

  /** Both lists of elements, side by side. */
  method CompareArrays(a: Node, b: Node, caseSensitive: bool) returns (equal: bool)
    requires a.Valid() && b.Valid() && a.kind == b.kind == ArrayKind
    ensures Comparable(a, b, caseSensitive) ==> equal == CompareItems(Trees(a.kids), Trees(b.kids), caseSensitive)
    decreases Height(a.tree) + Height(b.tree), 0
  {
    hide Node.Valid, Node.Spells, Comparable, Compare, CompareItems, Trees, Linked, Height;
    Walk(a, 0);
    Walk(b, 0);
    ghost var xs, ys := Trees(a.kids), Trees(b.kids);
    var x, y := a.child, b.child;
    ghost var i := 0;
    CompareItemsFrom(xs, ys, 0, caseSensitive);
    while x != null && y != null
      invariant 0 <= i <= |xs| && i <= |ys|
      invariant x == if i < |xs| then a.kids[i] else null
      invariant y == if i < |ys| then b.kids[i] else null
      invariant Comparable(a, b, caseSensitive) ==>
                CompareItems(xs, ys, caseSensitive) == CompareItems(xs[i..], ys[i..], caseSensitive)
      decreases |xs| - i
    {
      Walk(a, i);
      Walk(b, i);
      ComparableBelow(a, b, i, i, caseSensitive);
      CompareItemsFrom(xs, ys, i, caseSensitive);
      var same := CompareNodes(x, y, caseSensitive);
      if !same {
        return false;
      }
      x, y := x.next, y.next;
      i := i + 1;
    }
    CompareItemsFrom(xs, ys, i, caseSensitive);
    return x == y;
  }

  /** One member of a, looked up in b. */
  method CompareMember(a: Node, b: Node, x: Node, ghost i: nat, caseSensitive: bool) returns (same: bool)
    requires a.Valid() && b.Valid() && i < |a.kids| && x == a.kids[i]
    ensures Comparable(a, b, caseSensitive) ==>
              same == match Lookup(Members(b.kids), x.name, caseSensitive)
                      case None => false
                      case Some(v) => Compare(x.tree, v, caseSensitive)
    decreases Height(a.tree) + Height(b.tree), 0
  {
    hide Node.Valid, Node.Spells, Comparable, Compare, Members, Lookup, Linked, Height;
    Walk(a, i);
    var y := GetObjectItem(b, x.name, caseSensitive);
    if y == null {
      return false;
    }

    ghost var j :| 0 <= j < |b.kids| && b.kids[j] == y;
    Walk(b, j);
    ComparableBelow(a, b, i, j, caseSensitive);
    same := CompareNodes(x, y, caseSensitive);
  }

  /** Every member of a, looked up in b. */
  method CompareObjects(a: Node, b: Node, caseSensitive: bool) returns (equal: bool)
    requires a.Valid() && b.Valid() && a.kind == b.kind == ObjectKind
    ensures Comparable(a, b, caseSensitive) ==> equal == CompareMembers(Members(a.kids), Members(b.kids), caseSensitive)
    decreases Height(a.tree) + Height(b.tree), 1
  {
    hide Node.Valid, Node.Spells, Comparable, Compare, CompareMembers, Members, Lookup, Linked, Height;
    Walk(a, 0);
    Walk(b, 0);
    ghost var ms, ns := Members(a.kids), Members(b.kids);
    var x := a.child;
    ghost var i := 0;
    CompareMembersFrom(ms, ns, 0, caseSensitive);
    while x != null
      invariant 0 <= i <= |ms| && x == if i < |ms| then a.kids[i] else null
      invariant Comparable(a, b, caseSensitive) ==>
                CompareMembers(ms, ns, caseSensitive) == CompareMembers(ms[i..], ns, caseSensitive)
      decreases |ms| - i
    {
      Walk(a, i);
      CompareMembersFrom(ms, ns, i, caseSensitive);
      var same := CompareMember(a, b, x, i, caseSensitive);
      if !same {
        return false;
      }
      x := x.next;
      i := i + 1;
    }
    CompareMembersFrom(ms, ns, i, caseSensitive);
    return true;
  }

  /** A recursive copy compares equal to its original exactly when the original is consistent,
      as it is when its keys are distinct under the case rule. */
  method DuplicateThenCompare(item: Node, caseSensitive: bool) returns (equal: bool)
    requires item.Valid()
    ensures equal <==> Consistent(item.tree, caseSensitive)
    ensures DistinctKeys(item.tree, caseSensitive) ==> equal
  {
    var copy := Duplicate(item, true);
    ValidParts(copy);
    ValidParts(item);
    FreshComparable(item, copy, caseSensitive);
    equal := CompareNodes(item, copy, caseSensitive);
    CompareIsEquivalence(item.tree, item.tree, item.tree, caseSensitive);
    if DistinctKeys(item.tree, caseSensitive) {
      DistinctKeysConsistent(item.tree, caseSensitive);
    }
  }
}
