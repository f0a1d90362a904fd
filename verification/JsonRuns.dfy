/**
 Any number of edits one after the other: nodes are moved between a list of children and a pool of trees that are
 apart from it.  Whatever the edits, all stay whole and apart, the list of children is the one a plain sequence would
 be, and no tree changes.
 */
module JsonRuns {
  import opened JsonText
  import opened JsonNodes
  import opened JsonEdit

  datatype Edit = Add(item: Node) | Detach(which: int) | Replace(place: int, other: Node)

  /** The nodes of the list and of the pool. */
  datatype Nodes = Nodes(kids: seq<Node>, pool: set<Node>) {
    function All(): set<Node> {
      (set k | k in kids) + pool
    }
  }

  /** The nodes an edit takes are in the pool. */
  predicate Legal(s: Nodes, e: Edit) {
    match e
    case Add(item) => item in s.pool
    case Detach(_) => true
    case Replace(_, other) => other in s.pool
  }

  /** What an edit does to the nodes; a node that has been replaced is gone. */
  function After(s: Nodes, e: Edit): (r: Nodes)
    ensures r.All() <= s.All() + if e.Add? then {e.item} else if e.Replace? then {e.other} else {}
  {
    match e
    case Add(item) => Nodes(s.kids + [item], s.pool - {item})
    case Detach(which) =>
      if Place(which) < |s.kids| then Nodes(Without(s.kids, Place(which)), s.pool + {s.kids[Place(which)]}) else s
    case Replace(which, other) =>
      if Place(which) < |s.kids| then Nodes(s.kids[Place(which) := other], s.pool - {other}) else s
  }

  predicate AllLegal(s: Nodes, es: seq<Edit>)
    decreases |es|
  {
    es == [] || (Legal(s, es[0]) && AllLegal(After(s, es[0]), es[1..]))
  }

  function AfterAll(s: Nodes, es: seq<Edit>): Nodes
    decreases |es|
  {
    if es == [] then s else AfterAll(After(s, es[0]), es[1..])
  }

  /** A tree of the pool: whole, in no list, and still what it was. */
  ghost predicate Loose(n: Node, trees: map<Node, Value>)
    reads n, n.Repr
  {
    n.Valid() && n.next == null && n.prev == null && n in trees && n.Tree() == trees[n]
  }

  ghost predicate PoolOk(pool: set<Node>, trees: map<Node, Value>)
    reads pool, set n, x | n in pool && x in n.Repr :: x
  {
    forall n <- pool :: Loose(n, trees)
  }

  /** The list and the trees of the pool own nothing in common, and all they own is allocated. */
  ghost predicate Apart(h: Memory, list: Node, pool: set<Node>)
    reads h`live, list`Repr, pool`Repr
  {
    && list.Repr <= h.live && h !in list.Repr
    && (forall n <- pool :: list.Repr !! n.Repr && n.Repr <= h.live && h !in n.Repr)
    && (forall m <- pool, n <- pool :: m != n ==> m.Repr !! n.Repr)
  }

  /** The values of the children are those of their trees. */
  predicate Stands(kids: seq<Node>, vs: seq<Value>, trees: map<Node, Value>) {
    |kids| == |vs| && forall i :: 0 <= i < |kids| ==> kids[i] in trees && vs[i] == trees[kids[i]]
  }

  /** The list has these children, linked in both directions, and they are still the trees they were. */
  ghost predicate ListOk(list: Node, kids: seq<Node>, trees: map<Node, Value>)
    reads list, list.Repr
  {
    list.Valid() && list.kids == kids && Stands(kids, list.Values(), trees)
  }

  /** The list and the pool consist of these nodes, all separate and none of them changed. */
  ghost predicate Holds(h: Memory, list: Node, s: Nodes, trees: map<Node, Value>)
    reads h`live, list, list.Repr, s.pool, set n, x | n in s.pool && x in n.Repr :: x
  {
    ListOk(list, s.kids, trees) && PoolOk(s.pool, trees) && Apart(h, list, s.pool)
  }

  lemma PartsIn(h: Memory, list: Node, s: Nodes, trees: map<Node, Value>)
    requires Holds(h, list, s, trees)
    ensures list in list.Repr && forall k <- s.kids :: k in list.Repr && k.Repr <= list.Repr && k in k.Repr
    ensures forall n <- s.pool :: n in n.Repr && n !in list.Repr && list !in n.Repr && forall k <- s.kids :: k !in n.Repr
    ensures forall m <- s.pool, n <- s.pool :: m != n ==> m !in n.Repr
  {
    hide Node.Tree, Node.Values;
    Unfold(list);
    KidsApart(list);
    SelfIn(list);
    forall n | n in s.pool
      ensures n in n.Repr
    {
      SelfIn(n);
    }
  }

  lemma WithoutStands(kids: seq<Node>, vs: seq<Value>, trees: map<Node, Value>, w: nat)
    requires Stands(kids, vs, trees) && w < |kids|
    ensures Stands(Without(kids, w), Without(vs, w), trees) && kids[w] in trees && vs[w] == trees[kids[w]]
  {
  }

  method RunAdd(h: Memory, list: Node, ghost s: Nodes, ghost trees: map<Node, Value>, item: Node)
    requires Holds(h, list, s, trees) && item in s.pool
    modifies h, list`child, list`kids, list`Repr, s.All()`next, s.All()`prev
    ensures Holds(h, list, After(s, Add(item)), trees)
  {
    hide Node.Valid, Node.Tree, Node.Values, Node.Keys;
    PartsIn(h, list, s, trees);
    AddItemToArray(list, item);
  }

  method RunDetach(h: Memory, list: Node, ghost s: Nodes, ghost trees: map<Node, Value>, which: int)
    requires Holds(h, list, s, trees)
    modifies h, list`child, list`kids, list`Repr, s.All()`next, s.All()`prev
    ensures Holds(h, list, After(s, Detach(which)), trees)
  {
    hide Node.Valid, Node.Tree, Node.Values, Node.Keys, Stands, Without;
    PartsIn(h, list, s, trees);
    ghost var w, vs := Place(which), list.Values();
    var c := DetachItemFromArray(list, which);
    if w < |s.kids| {
      WithoutStands(s.kids, vs, trees, w);
    }
  }

  method RunReplace(h: Memory, list: Node, ghost s: Nodes, ghost trees: map<Node, Value>, which: int, item: Node)
    requires Holds(h, list, s, trees) && item in s.pool
    modifies h, list`child, list`kids, list`Repr, s.All()`next, s.All()`prev
    ensures Holds(h, list, After(s, Replace(which, item)), trees)
  {
    hide Node.Valid, Node.Tree, Node.Values, Node.Keys;
    PartsIn(h, list, s, trees);
    ReplaceItemInArray(h, list, which, item);
  }

  method RunEdit(h: Memory, list: Node, ghost s: Nodes, ghost trees: map<Node, Value>, e: Edit)
    requires Holds(h, list, s, trees) && Legal(s, e)
    modifies h, list`child, list`kids, list`Repr, s.All()`next, s.All()`prev
    ensures Holds(h, list, After(s, e), trees)
  {
    hide Holds;
    match e
    case Add(item) => RunAdd(h, list, s, trees, item);
    case Detach(which) => RunDetach(h, list, s, trees, which);
    case Replace(which, other) => RunReplace(h, list, s, trees, which, other);
  }

  /** After any sequence of edits the list is still linked in both directions and is what a plain sequence would be. */
  method RunEdits(h: Memory, list: Node, ghost s: Nodes, ghost trees: map<Node, Value>, es: seq<Edit>)
    requires Holds(h, list, s, trees) && AllLegal(s, es)
    modifies h, list`child, list`kids, list`Repr, s.All()`next, s.All()`prev
    ensures Holds(h, list, AfterAll(s, es), trees)
    decreases |es|
  {
    hide Holds;
    if es != [] {
      RunEdit(h, list, s, trees, es[0]);
      RunEdits(h, list, After(s, es[0]), trees, es[1..]);
    }
  }
}
