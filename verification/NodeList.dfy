/** Tree nodes and the doubly linked list of a node's children. */
module NodeList {
  import opened Bytes
  import opened JsonTree

  datatype Kind = NullKind | FalseKind | TrueKind | NumberKind | StringKind | ArrayKind | ObjectKind

  class Node {
    var next: Node?
    var prev: Node?
    var child: Node?
    var kind: Kind
    var valuestring: Text
    var valuedouble: real
    var name: Text

    /** The children, the nodes below this one, and the tree they make up. */
    ghost var kids: seq<Node>
    ghost var repr: set<Node>
    ghost var tree: Json

    constructor ()
      ensures next == null && prev == null && child == null
      ensures kids == [] && repr == {this}
    {
      next, prev, child := null, null, null;
      kind, valuestring, valuedouble, name := NullKind, [], 0.0, [];
      kids, repr, tree := [], {this}, Null;
    }

    /** A node whose children are in turn valid, share nothing, and spell its tree. */
    ghost predicate Valid()
      reads `child, `kind, `valuestring, `valuedouble, `kids, `repr, `tree, repr - {this}
      decreases repr
    {
      && this in repr && (forall i {:trigger kids[i]} :: 0 <= i < |kids| ==> kids[i] in repr - {this}) &&
         Linked(this, kids)
      && (forall i {:trigger kids[i]} :: 0 <= i < |kids| ==>
            kids[i].repr <= repr && this !in kids[i].repr && kids[i].Valid())
      && (forall i, j {:trigger kids[i], kids[j]} :: 0 <= i < j < |kids| ==> kids[i].repr !! kids[j].repr)
      && Spells(kids, tree)
    }

    /** The node's own fields and its children's trees make up this tree. */
    ghost predicate Spells(kids: seq<Node>, tree: Json)
      reads `kind, `valuestring, `valuedouble, kids`tree, kids`name
    {
      match kind
      case NullKind => tree == Null && kids == []
      case FalseKind => tree == False && kids == []
      case TrueKind => tree == True && kids == []
      case NumberKind => tree == Number(valuedouble) && kids == []
      case StringKind => tree == String(valuestring) && kids == []
      case ArrayKind => tree == Array(Trees(kids))
      case ObjectKind => tree == Object(Members(kids))
    }
  }

  ghost function Trees(kids: seq<Node>): (r: seq<Json>)
    reads kids`tree
    ensures |r| == |kids|
  {
    if kids == [] then [] else Trees(kids[..|kids| - 1]) + [kids[|kids| - 1].tree]
  }

  ghost function Members(kids: seq<Node>): (r: seq<Member>)
    reads kids`tree, kids`name
    ensures |r| == |kids|
  {
    if kids == [] then [] else Members(kids[..|kids| - 1]) + [Member(kids[|kids| - 1].name, kids[|kids| - 1].tree)]
  }

  /** parent's children are exactly kids: next and prev are inverse, the head has no prev, and
      the chain ends. */
  ghost predicate Linked(parent: Node, kids: seq<Node>)
    reads parent`child, kids`next, kids`prev
  {
    && parent !in kids
    && (forall i, j :: 0 <= i < j < |kids| ==> kids[i] != kids[j])
    && parent.child == (if kids == [] then null else kids[0])
    && (forall i {:trigger kids[i].next} :: 0 <= i < |kids| ==>
       kids[i].next == if i + 1 < |kids| then kids[i + 1] else null)
    && (forall i {:trigger kids[i].prev} :: 0 <= i < |kids| ==> kids[i].prev == if i > 0 then kids[i - 1] else null)
  }

  /** The list determines the children. */
  lemma LinkedUnique(parent: Node, kids: seq<Node>, others: seq<Node>)
    requires Linked(parent, kids) && Linked(parent, others)
    ensures kids == others
  {
    var n := if |kids| <= |others| then |kids| else |others|;
    var i := 0;
    while i < n
      invariant 0 <= i <= n && kids[..i] == others[..i]
      invariant i < |kids| && i < |others| ==> kids[i] == others[i]
    {
      assert kids[i].next == others[i].next;
      i := i + 1;
    }
    if n > 0 {
      assert kids[n - 1].next == others[n - 1].next;
    }
  }

  /** get_array_item. */
  method GetArrayItem(parent: Node, index: nat, ghost kids: seq<Node>) returns (item: Node?)
    requires Linked(parent, kids)
    ensures item == if index < |kids| then kids[index] else null
  {
    item := parent.child;
    var left := index;
    ghost var i := 0;
    while item != null && left > 0
      invariant 0 <= i <= |kids| && i + left == index
      invariant item == if i < |kids| then kids[i] else null
    {
      left := left - 1;
      item := item.next;
      i := i + 1;
    }
  }

  /** cJSON_AddItemToArray: the item, detached from any list, becomes the last child. */
  method AddItem(parent: Node, item: Node, ghost kids: seq<Node>)
    requires Linked(parent, kids) && item !in kids && item != parent
    requires item.next == null && item.prev == null
    modifies parent`child, item`prev, kids`next
    ensures Linked(parent, kids + [item])
  {
    var child := parent.child;
    if child == null {
      parent.child := item;
    } else {
      ghost var i := 0;
      while child.next != null
        invariant 0 <= i < |kids| && child == kids[i]
        decreases |kids| - i
      {
        child := child.next;
        i := i + 1;
      }
      child.next := item;
      item.prev := child;
    }
  }

  function Without<T>(s: seq<T>, k: nat): seq<T>
    requires k < |s|
  {
    s[..k] + s[k + 1..]
  }

  /** cJSON_DetachItemViaPointer. */
  method DetachItem(parent: Node, item: Node, ghost kids: seq<Node>, ghost k: nat)
    requires Linked(parent, kids) && k < |kids| && item == kids[k]
    modifies parent`child, kids`next, kids`prev
    ensures Linked(parent, Without(kids, k)) && item.next == null && item.prev == null
  {
    if item.prev != null {
      item.prev.next := item.next;
    }
    if item.next != null {
      item.next.prev := item.prev;
    }
    if item == parent.child {
      parent.child := item.next;
    }
    item.prev := null;
    item.next := null;
  }

  /** cJSON_DetachItemFromArray: nothing is detached at an index that has no child. */
  method DetachItemAt(parent: Node, which: int, ghost kids: seq<Node>) returns (item: Node?)
    requires Linked(parent, kids)
    modifies parent`child, kids`next, kids`prev
    ensures if 0 <= which < |kids|
            then item == kids[which] && item.next == null && item.prev == null && Linked(parent, Without(kids, which))
            else item == null && Linked(parent, kids)
  {
    if which < 0 {
      return null;
    }
    item := GetArrayItem(parent, which, kids);
    if item != null {
      DetachItem(parent, item, kids, which);
    }
  }

  /** cJSON_InsertItemInArray: at an index past the end the item is appended. */
  method InsertItem(parent: Node, which: int, item: Node, ghost kids: seq<Node>)
    requires Linked(parent, kids) && item !in kids && item != parent
    requires which >= |kids| ==> item.next == null && item.prev == null
    modifies parent`child, kids`next, kids`prev, item`next, item`prev
    ensures which < 0 ==> Linked(parent, kids)
    ensures 0 <= which < |kids| ==> Linked(parent, kids[..which] + [item] + kids[which..])
    ensures |kids| <= which ==> Linked(parent, kids + [item])
  {
    if which < 0 {
      return;
    }
    var after := GetArrayItem(parent, which, kids);
    if after == null {
      AddItem(parent, item, kids);
      return;
    }
    item.next := after;
    item.prev := after.prev;
    after.prev := item;
    if after == parent.child {
      parent.child := item;
    } else {
      item.prev.next := item;
    }
  }

  /** cJSON_ReplaceItemViaPointer, up to the deletion of the old item, which is left alone. */
  method ReplaceItem(parent: Node, item: Node, replacement: Node, ghost kids: seq<Node>, ghost k: nat)
    requires Linked(parent, kids) && k < |kids| && item == kids[k]
    requires replacement !in kids || replacement == item
    requires replacement != parent
    modifies parent`child, kids`next, kids`prev, replacement`next, replacement`prev
    ensures Linked(parent, kids[k := replacement])
    ensures replacement != item ==> item.next == null && item.prev == null
  {
    if replacement == item {
      return;
    }
    replacement.next := item.next;
    replacement.prev := item.prev;
    if replacement.next != null {
      replacement.next.prev := replacement;
    }
    if replacement.prev != null {
      replacement.prev.next := replacement;
    }
    if parent.child == item {
      parent.child := replacement;
    }
    item.next := null;
    item.prev := null;
  }

  /** Detaching a child and inserting it where it was gives back the same list. */
  method DetachThenInsert(parent: Node, which: nat, ghost kids: seq<Node>)
    requires Linked(parent, kids) && which < |kids|
    modifies parent`child, kids`next, kids`prev
    ensures Linked(parent, kids)
  {
    var item := DetachItemAt(parent, which, kids);
    ghost var rest := Without(kids, which);
    InsertItem(parent, which, item, rest);
    assert which < |rest| ==> rest[..which] + [item] + rest[which..] == kids;
    assert which >= |rest| ==> rest + [item] == kids;
  }
}
