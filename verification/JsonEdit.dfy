/**
 Editing lists of children in place: adding, detaching, replacing and duplicating.  After any of them the
 list is linked in both directions again, and as a sequence it has changed as it should.
 */
module JsonEdit {
  import opened Bytes
  import opened JsonText
  import opened JsonStrings
  import opened JsonNodes
  import opened JsonParse
  import opened JsonPrint

  /** The sequence without the element at w. */
  function Without<T>(s: seq<T>, w: nat): seq<T>
    requires w < |s|
  {
    s[..w] + s[w + 1..]
  }

  /** Which child an index means: a negative one means the first. */
  function Place(which: int): nat {
    if which < 0 then 0 else which
  }

  /** cJSON_AddItemToArray (cJSON.c:520) */
  method AddItemToArray(list: Node, item: Node)
    requires list.Valid() && item.Valid() && list.Repr !! item.Repr && item.next == null && item.prev == null
    modifies list`child, list`kids, list`Repr, list.kids`next, item`prev
    ensures list.Valid() && list.kids == old(list.kids) + [item] && list.Repr == old(list.Repr) + item.Repr
    ensures list.Values() == old(list.Values()) + [old(item.Tree())]
    ensures list.Keys() == old(list.Keys()) + [item.key]
  {
    hide Node.Valid, Node.Tree, Node.Values, Node.Keys;
    var c := LastChild(list);
    Append(list, c, item);
  }

  /** Walks to the last child. */
  method LastChild(list: Node) returns (c: Node?)
    requires list.Valid()
    ensures c == LastOf(list)
  {
    hide Node.Valid, Links;
    LinksOf(list);
    c := list.child;
    if c != null {
      ghost var i: nat := 0;
      NextIs(list.kids, i);
      while c.next != null
        invariant i < |list.kids| && c == list.kids[i]
        decreases |list.kids| - i
      {
        NextIs(list.kids, i);
        c := c.next;
        i := i + 1;
      }
      NextIs(list.kids, i);
    }
  }

  lemma LinksOf(list: Node)
    requires list.Valid()
    ensures Links(list.kids) && list.child == if list.kids == [] then null else list.kids[0]
  {
  }

  /** The child at which, found by walking along the list; null if there are not so many. */
  method FindChild(list: Node, which: int) returns (c: Node?)
    requires list.Valid()
    ensures c == if Place(which) < |list.kids| then list.kids[Place(which)] else null
  {
    hide Node.Valid, Links;
    LinksOf(list);
    c := list.child;
    var w := which;
    ghost var i: nat := 0;
    while c != null && w > 0
      invariant i <= |list.kids| && c == (if i < |list.kids| then list.kids[i] else null)
      invariant Place(which) == i + Place(w)
      decreases |list.kids| - i
    {
      NextIs(list.kids, i);
      c := c.next;
      w := w - 1;
      i := i + 1;
    }
  }

  // ---------- Detaching ----------

  lemma WithoutParts(ks: seq<Node>, w: nat)
    requires w < |ks| && Separate(ks)
    ensures Separate(Without(ks, w)) && Union(ks) == Union(Without(ks, w)) + ks[w].Repr
    ensures Union(Without(ks, w)) !! ks[w].Repr
    ensures forall k <- Without(ks, w) :: k in ks
  {
    assert ks == ks[..w] + [ks[w]] + ks[w + 1..];
    UnionSum(ks[..w], ks[w + 1..]);
    UnionSum(ks[..w] + [ks[w]], ks[w + 1..]);
    UnionAppend(ks[..w], ks[w]);
    var ns := Without(ks, w);
    forall i, j | 0 <= i < j < |ns|
      ensures ns[i].Repr !! ns[j].Repr
    {
      WithoutAt(ks, w, i);
      WithoutAt(ks, w, j);
    }
    forall k | k in ns
      ensures k in ks && k.Repr !! ks[w].Repr
    {
      var i :| 0 <= i < |ns| && ns[i] == k;
      WithoutAt(ks, w, i);
    }
  }

  lemma UnionSum(xs: seq<Node>, ys: seq<Node>)
    ensures Union(xs + ys) == Union(xs) + Union(ys)
  {
  }

  /** A node from its parts. */
  lemma ShapeFromParts(n: Node)
    requires n.child == (if n.kids == [] then null else n.kids[0]) && Links(n.kids) && Separate(n.kids)
    requires n.Repr == n.Own() + Union(n.kids) && n.StringsOk()
    requires forall k <- n.kids :: k in k.Repr && n.Own() !! k.Repr
    ensures n.Shape()
  {
    hide Links, Separate, Node.StringsOk;
    InUnion(n.kids);
    assert n in n.Own();
  }

  /** What a node owns besides the child at w. */
  lemma KidApart(n: Node, w: nat)
    requires n.Valid() && w < |n.kids|
    ensures var rest := Without(n.kids, w);
            && n.Repr == n.Own() + Union(rest) + n.kids[w].Repr && (n.Own() + Union(rest)) !! n.kids[w].Repr
            && Separate(rest) && n.StringsOk() && n in n.Own()
            && (forall k <- rest :: k in n.kids && k in k.Repr && k.Valid() && n.Own() !! k.Repr && k != n.kids[w])
            && n.kids[w].Valid() && n.kids[w] in n.kids[w].Repr
  {
    hide Node.Valid, Links, Union, Node.StringsOk, Node.Own;
    Unfold(n);
    OwnIs(n);
    WithoutParts(n.kids, w);
    InUnion(Without(n.kids, w));
    assert n.kids[w] in n.kids;
    forall k | k in Without(n.kids, w)
      ensures k in n.kids && k in k.Repr && k.Valid() && n.Own() !! k.Repr && k != n.kids[w]
    {
    }
  }

  /** Where next and prev of the node at i point when the node at w is left out. */
  ghost function NextBut(ks: seq<Node>, w: nat, i: nat): Node?
    requires w < |ks| && i < |ks|
  {
    if i + 1 == w then (if w + 1 < |ks| then ks[w + 1] else null) else if i + 1 < |ks| then ks[i + 1] else null
  }

  ghost function PrevBut(ks: seq<Node>, w: nat, i: nat): Node?
    requires w < |ks| && i < |ks|
  {
    if i == w + 1 then (if w > 0 then ks[w - 1] else null) else if i > 0 then ks[i - 1] else null
  }

  /** The neighbours of the node at w are linked to each other. */
  ghost predicate Bridged(ks: seq<Node>, w: nat)
    requires w < |ks|
    reads ks`next, ks`prev
  {
    && (forall i :: 0 <= i < |ks| && i != w ==> ks[i].next == NextBut(ks, w, i))
    && (forall i :: 0 <= i < |ks| && i != w ==> ks[i].prev == PrevBut(ks, w, i))
  }

  lemma BridgedLinks(ks: seq<Node>, w: nat)
    requires w < |ks| && Bridged(ks, w)
    ensures Links(Without(ks, w))
  {
    var ns := Without(ks, w);
    forall i | 0 <= i < |ns|
      ensures ns[i].next == if i + 1 < |ns| then ns[i + 1] else null
      ensures ns[i].prev == if i > 0 then ns[i - 1] else null
    {
      var j := if i < w then i else i + 1;
      WithoutAt(ks, w, i);
      if i + 1 < |ns| {
        WithoutAt(ks, w, i + 1);
      }
      if i > 0 {
        WithoutAt(ks, w, i - 1);
      }
      assert ks[j].next == NextBut(ks, w, j) && ks[j].prev == PrevBut(ks, w, j);
    }
    assert NextLinks(ns) && PrevLinks(ns);
  }

  lemma WithoutAt<T>(s: seq<T>, w: nat, i: nat)
    requires w < |s| && i < |s| - 1
    ensures Without(s, w)[i] == s[if i < w then i else i + 1]
  {
  }

  /** cJSON_DetachItemFromArray (cJSON.c:525-526) */
  method DetachItemFromArray(list: Node, which: int) returns (c: Node?)
    requires list.Valid()
    modifies list`child, list`kids, list`Repr, list.kids`next, list.kids`prev
    ensures list.Valid()
    ensures Place(which) >= |old(list.kids)| ==>
              c == null && list.kids == old(list.kids) && list.Repr == old(list.Repr) && list.Values() == old(list.Values())
    ensures Place(which) < |old(list.kids)| ==>
              && c == old(list.kids)[Place(which)] && c.Valid() && c.next == null && c.prev == null
              && list.kids == Without(old(list.kids), Place(which))
              && list.Repr == old(list.Repr) - c.Repr && c.Repr <= old(list.Repr)
              && list.Values() == Without(old(list.Values()), Place(which)) && c.Tree() == old(list.Values())[Place(which)]
    ensures var w := if which < 0 then 0 else which;
            w < |old(list.kids)| ==>
              c == old(list.kids)[w] && list.Values() == old(list.Values())[..w] + old(list.Values())[w + 1..]
  {
    hide Node.Valid, Node.Tree, Node.Values, Node.Keys, Node.Own, Node.StringsOk, Union, Separate, Links;
    c := FindChild(list, which);
    if c == null { return; }
    ghost var ks, w := list.kids, Place(which);
    ghost var vs := list.Values();
    DetachKid(list, c, w);
    WithoutValues(list, vs, w);
  }

  /** Takes the child at w out of the list. */
  method DetachKid(list: Node, c: Node, ghost w: nat)
    requires list.Valid() && w < |list.kids| && c == list.kids[w]
    modifies list`child, list`kids, list`Repr, list.kids`next, list.kids`prev
    ensures c.Valid() && c.next == null && c.prev == null && c.Tree() == old(list.Values())[w]
    ensures list.Valid() && list.kids == Without(old(list.kids), w)
    ensures list.Repr == old(list.Repr) - c.Repr && c.Repr <= old(list.Repr)
    ensures forall i :: 0 <= i < |list.kids| ==> list.kids[i].Tree() == old(list.Values())[if i < w then i else i + 1]
  {
    hide Node.Valid, Node.Tree, Node.Values, Node.Own, Node.StringsOk, Union, Separate, Links, Distinct;
    Unfold(list);
    KidsApart(list);
    KidApart(list, w);
    ghost var ks, rest := list.kids, Without(list.kids, w);
    Unlink(list, c, w);
    forall k | k in ks
      ensures k.Valid() && k.Tree() == old(k.Tree())
    {
      assert old(k.Valid());
    }
    Regroup(list, rest, c);
    forall i | 0 <= i < |rest|
      ensures rest[i].Tree() == old(list.Values())[if i < w then i else i + 1]
    {
      WithoutAt(ks, w, i);
    }
  }

  /** A node whose list of children is now `rest`; c is a node apart. */
  ghost method Regroup(list: Node, rest: seq<Node>, c: Node)
    requires list.child == (if rest == [] then null else rest[0]) && Links(rest) && Separate(rest) && list.StringsOk()
    requires forall k <- rest :: k.Valid() && k in k.Repr && list.Own() !! k.Repr
    requires list in list.Own() && c.Valid() && list !in c.Repr
    modifies list`kids, list`Repr
    ensures list.Valid() && list.kids == rest && list.Repr == list.Own() + Union(rest)
    ensures forall k <- rest :: k.Tree() == old(k.Tree())
    ensures c.Valid() && c.Tree() == old(c.Tree())
  {
    hide Node.Valid, Node.Tree, Node.Own, Node.StringsOk, Union, Separate, Links;
    SelfIn(c);
    assert forall k <- rest :: list !in k.Repr;
    list.kids := rest;
    list.Repr := list.Own() + Union(rest);
    ShapeFromParts(list);
    Fold(list);
  }

  lemma WithoutValues(list: Node, vs: seq<Value>, w: nat)
    requires list.Valid() && w < |vs| && |vs| == |list.kids| + 1
    requires forall i :: 0 <= i < |list.kids| ==> list.kids[i].Tree() == vs[if i < w then i else i + 1]
    ensures list.Values() == Without(vs, w)
  {
    hide Node.Valid, Node.Tree;
    forall i | 0 <= i < |list.kids|
      ensures list.Values()[i] == Without(vs, w)[i]
    {
      WithoutAt(vs, w, i);
    }
  }

  lemma Different(ks: seq<Node>, i: int, j: int)
    requires Distinct(ks)
    ensures 0 <= i < |ks| && 0 <= j < |ks| && i != j ==> ks[i] != ks[j]
  {
  }

  /** Takes the child at w out of the links. */
  method Unlink(list: Node, c: Node, ghost w: nat)
    requires Links(list.kids) && w < |list.kids| && c == list.kids[w] && list.child == list.kids[0]
    requires Distinct(list.kids)
    modifies list`child, list.kids`next, list.kids`prev
    ensures var rest := Without(list.kids, w);
            Links(rest) && list.child == if rest == [] then null else rest[0]
    ensures c.next == null && c.prev == null
  {
    hide Links, Distinct, NextBut, PrevBut;
    ghost var ks := list.kids;
    ButNeighbours(ks, w);
    forall i | 0 <= i < |ks| && i != w && i != w - 1
      ensures ks[i].next == NextBut(ks, w, i) && ks[i] != c && ks[i] != c.prev
    {
      NextUntouched(ks, w, i);
    }
    forall i | 0 <= i < |ks| && i != w && i != w + 1
      ensures ks[i].prev == PrevBut(ks, w, i) && ks[i] != c && ks[i] != c.next
    {
      PrevUntouched(ks, w, i);
    }
    var next := c.next;
    BridgeOver(c);
    if c == list.child {
      list.child := next;
    }
    forall i | 0 <= i < |ks| && i != w
      ensures ks[i].next == NextBut(ks, w, i)
    {
    }
    forall i | 0 <= i < |ks| && i != w
      ensures ks[i].prev == PrevBut(ks, w, i)
    {
    }
    BridgedLinks(ks, w);
    WithoutFirst(ks, w);
  }

  /** Links the neighbours of c to each other. */
  method BridgeOver(c: Node)
    requires c.prev != c && c.next != c && (c.prev != null ==> c.prev != c.next)
    modifies IfAny(c.prev)`next, IfAny(c.next)`prev, c`next, c`prev
    ensures c.next == null && c.prev == null
    ensures old(c.prev) != null ==> old(c.prev).next == old(c.next)
    ensures old(c.next) != null ==> old(c.next).prev == old(c.prev)
  {
    if c.prev != null {
      c.prev.next := c.next;
    }
    if c.next != null {
      c.next.prev := c.prev;
    }
    c.prev, c.next := null, null;
  }

  /** The neighbours of the node at w, and what they will point to without it. */
  lemma ButNeighbours(ks: seq<Node>, w: nat)
    requires Links(ks) && Distinct(ks) && w < |ks|
    ensures ks[w].prev == (if w > 0 then ks[w - 1] else null) && ks[w].next == if w + 1 < |ks| then ks[w + 1] else null
    ensures w > 0 ==> NextBut(ks, w, w - 1) == ks[w].next
    ensures w + 1 < |ks| ==> PrevBut(ks, w, w + 1) == ks[w].prev
    ensures ks[w].prev != ks[w] && ks[w].next != ks[w] && (ks[w].prev != null ==> ks[w].prev != ks[w].next)
    ensures forall i :: 0 <= i < |ks| && i != w ==> ks[i] != ks[w]
  {
    hide Distinct, Links;
    NextIs(ks, w);
    Different(ks, w, w - 1);
    Different(ks, w, w + 1);
    Different(ks, w - 1, w + 1);
    forall i | 0 <= i < |ks| && i != w
      ensures ks[i] != ks[w]
    {
      Different(ks, i, w);
    }
  }

  lemma NextUntouched(ks: seq<Node>, w: nat, i: nat)
    requires Links(ks) && Distinct(ks) && w < |ks| && i < |ks| && i != w && i != w - 1
    ensures ks[i].next == NextBut(ks, w, i) && ks[i] != ks[w] && ks[i] != ks[w].prev
  {
    hide Links, Distinct;
    NextIs(ks, i);
    NextIs(ks, w);
    Different(ks, i, w);
    Different(ks, i, w - 1);
  }

  lemma PrevUntouched(ks: seq<Node>, w: nat, i: nat)
    requires Links(ks) && Distinct(ks) && w < |ks| && i < |ks| && i != w && i != w + 1
    ensures ks[i].prev == PrevBut(ks, w, i) && ks[i] != ks[w] && ks[i] != ks[w].next
  {
    hide Links, Distinct;
    NextIs(ks, i);
    NextIs(ks, w);
    Different(ks, i, w);
    Different(ks, i, w + 1);
  }

  lemma WithoutFirst(ks: seq<Node>, w: nat)
    requires w < |ks|
    ensures |ks| > 1 ==> Without(ks, w)[0] == ks[if w == 0 then 1 else 0]
    ensures Without(ks, w) == [] <==> |ks| == 1
  {
  }

  // ---------- Replacing ----------

  lemma ReplaceParts(ks: seq<Node>, w: nat, n: Node)
    requires w < |ks| && Separate(Without(ks, w)) && forall k <- Without(ks, w) :: k.Repr !! n.Repr
    ensures Separate(ks[w := n]) && Union(ks[w := n]) == Union(Without(ks, w)) + n.Repr
    ensures forall k <- ks[w := n] :: k == n || k in Without(ks, w)
  {
    var ns, rest := ks[w := n], Without(ks, w);
    assert ns == ks[..w] + [n] + ks[w + 1..];
    UnionSum(ks[..w], ks[w + 1..]);
    UnionSum(ks[..w] + [n], ks[w + 1..]);
    UnionAppend(ks[..w], n);
    forall i | 0 <= i < |ks| && i != w
      ensures ns[i] == rest[if i < w then i else i - 1]
    {
      WithoutAt(ks, w, if i < w then i else i - 1);
    }
    forall i, j | 0 <= i < j < |ns|
      ensures ns[i].Repr !! ns[j].Repr
    {
      if i != w && j != w {
        assert rest[if i < w then i else i - 1].Repr !! rest[if j < w then j else j - 1].Repr;
      }
    }
  }

  /** Puts item where the child at w is. */
  method Relink(list: Node, c: Node, item: Node, ghost w: nat)
    requires Links(list.kids) && w < |list.kids| && c == list.kids[w] && list.child == list.kids[0] && item !in list.kids
    requires Distinct(list.kids)
    modifies list`child, list.kids`next, list.kids`prev, item`next, item`prev
    ensures Links(list.kids[w := item]) && list.child == list.kids[w := item][0]
    ensures c.next == null && c.prev == null
  {
    hide Links, Distinct, NextBut, PrevBut;
    ghost var ks := list.kids;
    ButNeighbours(ks, w);
    forall i | 0 <= i < |ks| && i != w && i != w - 1
      ensures ks[i].next == NextBut(ks, w, i) && ks[i] != c && ks[i] != c.prev && ks[i] != item
    {
      NextUntouched(ks, w, i);
    }
    forall i | 0 <= i < |ks| && i != w && i != w + 1
      ensures ks[i].prev == PrevBut(ks, w, i) && ks[i] != c && ks[i] != c.next && ks[i] != item
    {
      PrevUntouched(ks, w, i);
    }
    ghost var ns := ks[w := item];
    TakePlace(c, item, c == list.child);
    if c == list.child {
      list.child := item;
    }
    forall i | 0 <= i < |ns|
      ensures ns[i].next == if i + 1 < |ns| then ns[i + 1] else null
    {
      ButOrdinary(ks, w, i);
    }
    forall i | 0 <= i < |ns|
      ensures ns[i].prev == if i > 0 then ns[i - 1] else null
    {
      ButOrdinary(ks, w, i);
    }
    LinksFrom(ns);
  }

  lemma ButOrdinary(ks: seq<Node>, w: nat, i: nat)
    requires w < |ks| && i < |ks|
    ensures i + 1 != w ==> NextBut(ks, w, i) == if i + 1 < |ks| then ks[i + 1] else null
    ensures i != w + 1 ==> PrevBut(ks, w, i) == if i > 0 then ks[i - 1] else null
  {
  }

  /** item takes the place of c between its neighbours; c is the first if it has none before it. */
  method TakePlace(c: Node, item: Node, first: bool)
    requires c.prev != c && c.next != c && (c.prev != null ==> c.prev != c.next)
    requires item != c && item != c.prev && item != c.next && (first <==> c.prev == null)
    modifies IfAny(c.prev)`next, IfAny(c.next)`prev, c`next, c`prev, item`next, item`prev
    ensures c.next == null && c.prev == null && item.next == old(c.next) && item.prev == old(c.prev)
    ensures old(c.prev) != null ==> old(c.prev).next == item
    ensures old(c.next) != null ==> old(c.next).prev == item
  {
    item.next, item.prev := c.next, c.prev;
    if item.next != null {
      item.next.prev := item;
    }
    if !first {
      item.prev.next := item;
    }
    c.next, c.prev := null, null;
  }

  lemma LinksFrom(ns: seq<Node>)
    requires forall i :: 0 <= i < |ns| ==> ns[i].next == if i + 1 < |ns| then ns[i + 1] else null
    requires forall i :: 0 <= i < |ns| ==> ns[i].prev == if i > 0 then ns[i - 1] else null
    ensures Links(ns)
  {
  }

  /** Replaces the child at w; c, which it was, is a node of its own now. */
  method ReplaceKid(list: Node, c: Node, item: Node, ghost w: nat)
    requires list.Valid() && w < |list.kids| && c == list.kids[w] && item.Valid() && list.Repr !! item.Repr
    modifies list`child, list`kids, list`Repr, list.kids`next, list.kids`prev, item`next, item`prev
    ensures c.Valid() && c.next == null && c.prev == null
    ensures list.Valid() && list.kids == old(list.kids)[w := item]
    ensures list.Repr == old(list.Repr) - c.Repr + item.Repr && c.Repr <= old(list.Repr) && item.Repr == old(item.Repr)
    ensures list.Values() == old(list.Values())[w := old(item.Tree())]
  {
    hide Node.Valid, Node.Tree, Node.Values, Node.Own, Node.StringsOk, Union, Separate, Links, Distinct;
    Unfold(list);
    KidsApart(list);
    KidApart(list, w);
    SelfIn(item);
    SelfIn(list);
    ghost var ks, ns := list.kids, list.kids[w := item];
    ghost var vs := list.Values();
    Relink(list, c, item, w);
    forall k | k in ks
      ensures k.Valid() && k.Tree() == old(k.Tree())
    {
      assert old(k.Valid());
    }
    ReplaceParts(ks, w, item);
    Regroup(list, ns, c);
    assert list.Values() == vs[w := old(item.Tree())];
  }

  /** cJSON_ReplaceItemInArray (cJSON.c:532-534): the replaced child is deleted. */
  method ReplaceItemInArray(h: Memory, list: Node, which: int, item: Node)
    requires list.Valid() && item.Valid() && list.Repr !! item.Repr
    requires list.Repr <= h.live && h !in list.Repr && h !in item.Repr
    modifies h, list`child, list`kids, list`Repr, list.kids`next, list.kids`prev, item`next, item`prev
    ensures list.Valid()
    ensures var w := Place(which);
            if w < |old(list.kids)| then
              && list.kids == old(list.kids)[w := item] && list.Values() == old(list.Values())[w := old(item.Tree())]
              && list.Repr == old(list.Repr) - old(list.kids[w].Repr) + item.Repr
              && h.live == old(h.live) - old(list.kids[w].Repr)
            else
              && list.kids == old(list.kids) && list.Values() == old(list.Values())
              && list.Repr == old(list.Repr) && h.live == old(h.live)
              && item.next == old(item.next) && item.prev == old(item.prev)
    ensures var w := if which < 0 then 0 else which;
            w < |old(list.kids)| ==> list.kids == old(list.kids)[w := item]
  {
    hide Node.Valid, Node.Tree, Node.Values, Union;
    var c := FindChild(list, which);
    if c == null { return; }
    ReplaceKid(list, c, item, Place(which));
    AloneDeletable(c);
    Delete(h, c, [c]);
  }

  // ---------- Duplicating ----------

  /** A copy of a string, if there is memory for it. */
  method CopyText(h: Memory, a: array<byte>, ghost s: seq<byte>) returns (copy: array?<byte>)
    requires CString(a, s)
    modifies h
    ensures copy == null ==> h.live == old(h.live) && h.failed
    ensures copy != null ==>
              fresh(copy) && CString(copy, s) && h.live == old(h.live) + {copy} && h.failed == old(h.failed)
  {
    var len := StrLen(a, s);
    copy := h.NewBytes(len + 1);
    if copy == null { return; }
    StrCpy(copy, 0, a, s);
  }

  /** Everything but the children of a node has been copied. */
  ghost predicate CopiedSelf(copy: Node, item: Node)
    reads copy`kind, copy`valuedouble, copy`text, copy`key, copy`valuestring, copy`name
    reads item`kind, item`valuedouble, item`text, item`key, item`valuestring, item`name
  {
    && copy.kind == item.kind && copy.valuedouble == item.valuedouble && copy.text == item.text && copy.key == item.key
    && (copy.valuestring == null <==> item.valuestring == null) && (copy.name == null <==> item.name == null)
  }

  /** A copy of a node without its children; null if memory runs out. */
  method DuplicateSelf(h: Memory, item: Node) returns (copy: Node?)
    requires item.Valid() && h !in item.Repr
    modifies h
    ensures copy == null ==> h.live == old(h.live) && h.failed
    ensures copy != null ==>
              && fresh(copy.Repr) && copy.Valid() && copy.kids == [] && copy.next == null && copy.prev == null
              && CopiedSelf(copy, item) && h !in copy.Repr
              && h.live == old(h.live) + copy.Repr && h.failed == old(h.failed)
  {
    hide Node.Valid, CString, Union, Account;
    copy := h.NewItem();
    if copy == null { return; }
    copy.kind, copy.valuedouble := item.kind, item.valuedouble;
    copy.text, copy.key := item.text, item.key;
    LoneNode(copy);
    var ok := CopyStrings(h, copy, item);
    FilledIs(copy.Repr, h.live, old(h.live), copy);
    if !ok {
      AloneDeletable(copy);
      Delete(h, copy, [copy]);
      copy := null;
    }
  }

  lemma FilledIs(repr: set<object>, live: set<object>, before: set<object>, n: Node)
    requires Account({n}, before + {n}, repr, live)
    ensures live == before + repr
  {
  }

  /** Copies of the strings of a node. */
  method CopyStrings(h: Memory, copy: Node, item: Node) returns (ok: bool)
    requires item.Valid() && copy.Valid() && h !in copy.Repr && copy.kids == [] && copy.child == null
    requires copy.valuestring == null && copy.name == null && copy.text == item.text && copy.key == item.key
    requires copy.Repr == {copy} && copy !in item.Repr
    modifies h, copy`valuestring, copy`name, copy`Repr
    ensures Filled(h, copy) && copy.kids == [] && (if ok then h.failed == old(h.failed) else h.failed)
    ensures ok ==> (copy.valuestring == null <==> item.valuestring == null) && (copy.name == null <==> item.name == null)
  {
    hide Node.Valid, CString, Union;
    StringsOf(item);
    LoneNode(copy);
    ok := true;
    if item.valuestring != null {
      copy.valuestring := CopyText(h, item.valuestring, item.text);
      ok := copy.valuestring != null;
      copy.Repr := copy.Own();
      LoneNode(copy);
    }
    if ok && item.name != null {
      copy.name := CopyText(h, item.name, item.key);
      ok := copy.name != null;
      copy.Repr := copy.Own();
      LoneNode(copy);
    }
  }

  lemma StringsOf(item: Node)
    requires item.Valid()
    ensures item.valuestring != null ==> CString(item.valuestring, item.text) && item.valuestring in item.Repr
    ensures item.name != null ==> CString(item.name, item.key) && item.name in item.Repr
  {
    hide CString;
  }

  lemma LoneNode(n: Node)
    requires n.kids == [] && n.child == null && n.Repr == n.Own()
    requires n.valuestring != null ==> CString(n.valuestring, n.text) && n.valuestring != n.name
    requires n.name != null ==> CString(n.name, n.key)
    ensures n.Valid()
  {
    hide CString;
    assert Union([]) == {};
  }

  /** cJSON_Duplicate (cJSON.c:554-579): an equal tree of new nodes, or nothing and no memory lost. */
  method Duplicate(h: Memory, item: Node, recurse: bool) returns (copy: Node?)
    requires item.Valid() && h !in item.Repr
    modifies h
    ensures copy == null ==> h.live == old(h.live) && h.failed
    ensures copy != null ==>
              && fresh(copy.Repr) && copy.Valid() && copy.next == null && copy.prev == null && copy.key == item.key
              && h !in copy.Repr && h.live == old(h.live) + copy.Repr && h.failed == old(h.failed)
              && (if recurse then copy.Tree() == item.Tree() else copy.kids == [] && CopiedSelf(copy, item))
    decreases item.Repr, 2
  {
    hide Node.Valid, Node.Tree, Node.Values, Node.Keys, Union;
    copy := DuplicateSelf(h, item);
    if copy == null || !recurse { return; }
    SelfIn(copy);
    SelfIn(item);
    var ok := DuplicateKids(h, copy, item);
    if ok {
      SameTree(copy, item);
    } else {
      AloneDeletable(copy);
      Delete(h, copy, [copy]);
      copy := null;
    }
  }

  /** Copies of all children, up to the first for which memory runs out. */
  method DuplicateKids(h: Memory, copy: Node, item: Node) returns (ok: bool)
    requires item.Valid() && h !in item.Repr && h !in copy.Repr
    requires copy.Valid() && copy.kids == [] && copy.Repr !! item.Repr
    modifies h, copy`child, copy`kids, copy`Repr
    ensures Filled(h, copy) && (if ok then h.failed == old(h.failed) else h.failed) && item.Valid()
    ensures ok ==> copy.Values() == item.Values() && copy.Keys() == item.Keys()
    decreases item.Repr, 1
  {
    hide Node.Valid, Node.Tree, Node.Values, Node.Keys, Links, Account;
    LinksOf(item);
    SelfIn(copy);
    SameChildren(copy, item);
    AccountSame(copy.Repr, h.live);
    var cptr, nptr: Node? := item.child, null;
    ghost var i: nat := 0;
    ghost var vs, keys := item.Values(), item.Keys();
    while cptr != null
      invariant i <= |item.kids| && cptr == (if i < |item.kids| then item.kids[i] else null)
      invariant nptr == LastOf(copy) && (nptr != null ==> fresh(nptr))
      invariant Filled(h, copy) && h.failed == old(h.failed) && item.Valid()
      invariant item.Values() == vs && item.Keys() == keys && copy.Repr !! item.Repr
      invariant copy.Values() == vs[..i] && copy.Keys() == keys[..i]
      decreases |item.kids| - i
    {
      ghost var repr, live := copy.Repr, h.live;
      ok, nptr := DuplicateKid(h, copy, nptr, item, cptr, i);
      AccountOn(old(copy.Repr), old(h.live), repr, live, copy.Repr, h.live);
      if !ok { return; }
      LinksOf(item);
      NextIs(item.kids, i);
      cptr := cptr.next;
      assert vs[..i + 1] == vs[..i] + [vs[i]] && keys[..i + 1] == keys[..i] + [keys[i]];
      i := i + 1;
    }
    ok := true;
  }

  /** A copy of one child behind the copies there are already. */
  method DuplicateKid(h: Memory, copy: Node, last: Node?, item: Node, kid: Node, ghost i: nat) returns (ok: bool, child: Node?)
    requires item.Valid() && i < |item.kids| && kid == item.kids[i] && h !in item.Repr && h !in copy.Repr
    requires copy.Valid() && last == LastOf(copy)
    requires copy.Repr !! item.Repr
    modifies h, copy`child, copy`kids, copy`Repr, IfAny(last)`next
    ensures Filled(h, copy) && (if ok then h.failed == old(h.failed) else h.failed) && copy.Repr !! item.Repr
    ensures item.Valid() && item.Values() == old(item.Values()) && item.Keys() == old(item.Keys())
    ensures ok ==>
              && child != null && fresh(child) && copy.kids == old(copy.kids) + [child]
              && copy.Values() == old(copy.Values()) + [old(kid.Tree())] && copy.Keys() == old(copy.Keys()) + [old(kid.key)]
    decreases item.Repr, 0
  {
    hide Node.Valid, Node.Tree, Node.Values, Node.Keys, Account, Node.Shape, Links;
    KidOf(item, i);
    LinksOf(item);
    LastIn(copy);
    AccountSame(copy.Repr, h.live);
    child := Duplicate(h, kid, true);
    if child == null {
      return false, child;
    }
    AccountAdd(copy.Repr, old(h.live), child.Repr);
    SelfIn(child);
    Append(copy, last, child);
    ok := true;
  }

  lemma LastIn(n: Node)
    requires n.Valid()
    ensures n in n.Repr && (LastOf(n) != null ==> LastOf(n) in n.Repr)
  {
    hide Node.Tree;
  }

  lemma KidOf(item: Node, i: nat)
    requires item.Valid() && i < |item.kids|
    ensures item.kids[i].Valid() && item.kids[i].Repr < item.Repr
  {
    hide Node.Tree;
  }

  lemma AccountAdd(repr: set<object>, live: set<object>, more: set<object>)
    requires repr !! more
    ensures Account(repr, live, repr + more, live + more)
  {
    assert repr + more - repr == more;
  }

  lemma SameChildren(copy: Node, item: Node)
    requires copy.Valid() && item.Valid() && copy.kids == []
    ensures copy.Values() == item.Values()[..0] && copy.Keys() == item.Keys()[..0]
  {
    hide Node.Valid, Node.Tree;
  }

  lemma SameTree(copy: Node, item: Node)
    requires copy.Valid() && item.Valid() && CopiedSelf(copy, item)
    requires copy.Values() == item.Values() && copy.Keys() == item.Keys()
    ensures copy.Tree() == item.Tree()
  {
    hide Node.Valid, Node.Values, Node.Keys;
  }
}
