/** Trees of nodes under construction: leaves, and lists of children that get a parent. */
module NodeBuild {
  import opened Bytes
  import opened JsonTree
  import opened NodeList
  import opened NodeTree

  /** A node without children. */
  ghost predicate Childfree(item: Node)
    reads item
  {
    item.child == null && item.kids == [] && item.repr == {item}
  }

  /** Nodes linked in this order, with no parent yet. */
  ghost predicate Strung(kids: seq<Node>)
    reads kids`next, kids`prev
  {
    && (forall i, j :: 0 <= i < j < |kids| ==> kids[i] != kids[j])
    && (forall i {:trigger kids[i].next} :: 0 <= i < |kids| ==>
          kids[i].next == if i + 1 < |kids| then kids[i + 1] else null)
    && (forall i {:trigger kids[i].prev} :: 0 <= i < |kids| ==> kids[i].prev == if i > 0 then kids[i - 1] else null)
  }

  /** Valid nodes that share nothing; they and all nodes below them are in `below`. */
  ghost predicate Whole(kids: seq<Node>, below: set<Node>)
    reads kids, below
  {
    && (forall i {:trigger kids[i]} :: 0 <= i < |kids| ==>
          kids[i] in kids[i].repr && kids[i].repr <= below && kids[i].Valid())
    && (forall i, j {:trigger kids[i], kids[j]} :: 0 <= i < j < |kids| ==> kids[i].repr !! kids[j].repr)
  }

  /** A list under construction and its head. */
  ghost predicate Built(kids: seq<Node>, below: set<Node>, head: Node?)
    reads kids, below
  {
    Strung(kids) && Whole(kids, below) && head == if kids == [] then null else kids[0]
  }

  function Last(kids: seq<Node>): Node? {
    if kids == [] then null else kids[|kids| - 1]
  }

  lemma NoKids()
    ensures Built([], {}, null) && Trees([]) == [] && Members([]) == []
  {
  }

  /** A new node behind the last one of a list. */
  method Extend(head: Node?, tail: Node?, ghost kids: seq<Node>, ghost below: set<Node>)
    returns (first: Node?, item: Node)
    requires Built(kids, below, head) && tail == Last(kids)
    modifies kids`next
    ensures fresh(item) && Childfree(item)
    ensures Strung(kids + [item]) && Whole(kids, below) && first == (kids + [item])[0]
    ensures Trees(kids) == old(Trees(kids)) && Members(kids) == old(Members(kids))
  {
    hide Node.Valid;
    item := new Node();
    first := head;
    if tail == null {
      first := item;
    } else {
      tail.next := item;
      item.prev := tail;
    }
  }

  /** The new node has become valid. */
  lemma WholeMore(kids: seq<Node>, below: set<Node>, item: Node)
    requires Whole(kids, below) && item.Valid() && item.repr !! below
    ensures item in item.repr && Whole(kids + [item], below + item.repr)
    ensures Trees(kids + [item]) == Trees(kids) + [item.tree]
    ensures Members(kids + [item]) == Members(kids) + [Member(item.name, item.tree)]
  {
    hide Node.Valid;
    ValidParts(item);
    assert (kids + [item])[..|kids|] == kids;
  }

  /** The list becomes the children of an array or object. */
  method Fill(item: Node, kind: Kind, head: Node?, ghost kids: seq<Node>, ghost below: set<Node>)
    requires Built(kids, below, head) && item !in below
    requires kind == ArrayKind || kind == ObjectKind
    modifies item`kind, item`child, item`kids, item`repr, item`tree
    ensures item.Valid() && item.repr == {item} + below
    ensures item.tree == old(if kind == ArrayKind then Array(Trees(kids)) else Object(Members(kids)))
  {
    hide Node.Valid, Trees, Members;
    assert item !in kids;
    item.kind := kind;
    item.child := head;
    item.kids, item.repr := kids, {item} + below;
    item.tree := if kind == ArrayKind then Array(Trees(kids)) else Object(Members(kids));
    ValidWhole(item);
  }

  /** A value without children. */
  method SetLeaf(item: Node, kind: Kind, ghost v: Json)
    requires Childfree(item)
    requires match kind
             case NullKind => v == Null
             case FalseKind => v == False
             case TrueKind => v == True
             case NumberKind => v == Number(item.valuedouble)
             case StringKind => v == String(item.valuestring)
             case _ => false
    modifies item`kind, item`tree
    ensures item.Valid() && item.tree == v && item.repr == {item}
  {
    item.kind := kind;
    item.tree := v;
  }
}
