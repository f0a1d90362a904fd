/**
 The nodes of cJSON in memory: a node owns its strings and the doubly linked list of its children; and the
 memory they are allocated in.
 References (cJSON_IsReference) are not part of the model.
 */
module JsonNodes {
  import opened Bytes
  import opened JsonText
  import opened JsonStrings

  const KIND_FALSE := 0
  const KIND_TRUE := 1
  const KIND_NULL := 2
  const KIND_NUMBER := 3
  const KIND_STRING := 4
  const KIND_ARRAY := 5
  const KIND_OBJECT := 6

  class Node {
    var next: Node?
    var prev: Node?
    var child: Node?
    var kind: nat
    var valuestring: array?<byte>
    var valuedouble: real
    var name: array?<byte>

    ghost var kids: seq<Node>
    ghost var text: seq<byte>
    ghost var key: seq<byte>
    ghost var Repr: set<object>

    /** A node as cJSON_New_Item gives it: all zero. */
    constructor ()
      ensures Valid() && Repr == {this} && kids == [] && key == [] && child == null
      ensures next == null && prev == null && valuestring == null && name == null && kind == KIND_FALSE
    {
      next, prev, child, kind, valuestring, valuedouble, name := null, null, null, KIND_FALSE, null, 0.0, null;
      kids, text, key := [], [], [];
      Repr := {this};
    }

    /** The node itself and its strings. */
    ghost function Own(): set<object>
      reads this`valuestring, this`name
    {
      {this} + (if valuestring == null then {} else {valuestring}) + if name == null then {} else {name}
    }

    ghost predicate StringsOk()
      reads this`valuestring, this`name, this`text, this`key, valuestring, name
    {
      && (valuestring != null ==> CString(valuestring, text))
      && (name != null ==> CString(name, key))
      && (valuestring != null ==> valuestring != name)
    }

    /** The children are linked in both directions; child points to the first. */
    ghost predicate Linked()
      reads this`child, this`kids, kids`next, kids`prev
    {
      && child == (if kids == [] then null else kids[0])
      && Links(kids)
    }

    /** The node and its children own disjoint parts of Repr, and nothing else is in it. */
    ghost predicate Apart()
      reads this`valuestring, this`name, this`kids, this`Repr, kids`Repr
    {
      && Repr == Own() + Union(kids)
      && (forall k <- kids :: Own() !! k.Repr)
      && Separate(kids)
    }

    /** What is known of the node itself, without its neighbours, and of its list of children. */
    ghost predicate Shape()
      reads this`child, this`valuestring, this`name, this`kids, this`text, this`key, this`Repr
      reads kids`Repr, kids`next, kids`prev, valuestring, name
    {
      && this in Repr && Own() <= Repr
      && (forall k <- kids :: k in Repr && this !in k.Repr && k.Repr < Repr && k in k.Repr)
      && Linked() && Apart() && StringsOk()
    }

    ghost predicate Valid()
      reads this`child, this`valuestring, this`name, this`kids, this`text, this`key, this`Repr, Repr - {this}
      decreases Repr
    {
      && this in Repr && Own() <= Repr
      && (forall k <- kids :: k in Repr && this !in k.Repr && k.Repr < Repr && k in k.Repr)
      && Shape()
      && (forall k <- kids :: k.Valid())
    }

    /** The value of the node and of what it owns. */
    ghost function Tree(): Value
      requires Valid()
      reads this`child, this`kind, this`valuestring, this`valuedouble, this`name, this`kids, this`text, this`key, this`Repr, Repr - {this}
      decreases Repr, 2
    {
      if kind == KIND_FALSE then False
      else if kind == KIND_TRUE then True
      else if kind == KIND_NULL then Null
      else if kind == KIND_NUMBER then Number(valuedouble)
      else if kind == KIND_STRING then Str(text)
      else if kind == KIND_ARRAY then Arr(ItemsOf(Values()))
      else Obj(MembersOf(Keys(), Values()))
    }

    /** The values of the first n children. */
    ghost function ValuesTo(n: nat): (r: seq<Value>)
      requires Valid() && n <= |kids|
      reads this`child, this`kind, this`valuestring, this`valuedouble, this`name, this`kids, this`text, this`key, this`Repr, Repr - {this}
      ensures |r| == n
      ensures forall k :: 0 <= k < n ==> r[k] == kids[k].Tree()
      decreases Repr, 0, n
    {
      if n == 0 then [] else ValuesTo(n - 1) + [kids[n - 1].Tree()]
    }

    ghost function Values(): (r: seq<Value>)
      requires Valid()
      reads this`child, this`kind, this`valuestring, this`valuedouble, this`name, this`kids, this`text, this`key, this`Repr, Repr - {this}
      ensures |r| == |kids|
      ensures forall k :: 0 <= k < |kids| ==> r[k] == kids[k].Tree()
      decreases Repr, 1
    {
      ValuesTo(|kids|)
    }

    ghost function KeysTo(n: nat): (r: seq<seq<byte>>)
      requires n <= |kids|
      reads this`kids, kids`key
      ensures |r| == n
      ensures forall k :: 0 <= k < n ==> r[k] == kids[k].key
    {
      if n == 0 then [] else KeysTo(n - 1) + [kids[n - 1].key]
    }

    ghost function Keys(): (r: seq<seq<byte>>)
      reads this`kids, kids`key
      ensures |r| == |kids|
      ensures forall k :: 0 <= k < |kids| ==> r[k] == kids[k].key
    {
      KeysTo(|kids|)
    }
  }

  /** What has been allocated and not been freed, and whether an allocation has failed. */
  class Memory {
    ghost var live: set<object>
    ghost var failed: bool

    /** Whether malloc gives what it is asked for. */
    method Grant() returns (ok: bool)
      modifies this
      ensures live == old(live) && failed == (old(failed) || !ok)
    {
      ok := *;
      failed := failed || !ok;
    }

    /** A new node without contents (cJSON_New_Item), if there is memory for it. */
    method NewItem() returns (n: Node?)
      modifies this
      ensures n == null ==> live == old(live) && failed
      ensures n != null ==>
                && fresh(n) && n.Valid() && n.Repr == {n} && n.kids == [] && n.key == [] && n.child == null
                && n.next == null && n.prev == null && n.valuestring == null && n.name == null
                && live == old(live) + {n} && failed == old(failed)
    {
      hide Node.Valid;
      var ok := Grant();
      if !ok { return null; }
      n := new Node();
      live := live + {n};
    }

    /** A buffer for a string, if there is memory for it. */
    method NewBytes(n: nat) returns (a: array?<byte>)
      modifies this
      ensures a == null ==> live == old(live) && failed
      ensures a != null ==> fresh(a) && a.Length == n && live == old(live) + {a} && failed == old(failed)
    {
      var ok := Grant();
      if !ok { return null; }
      a := new byte[n];
      live := live + {a};
    }

    /** An array of so many null pointers, if there is memory for it. */
    method NewPointers(n: nat) returns (a: array?<array?<byte>>)
      modifies this
      ensures a == null ==> live == old(live) && failed
      ensures a != null ==>
                && fresh(a) && a.Length == n && (forall k :: 0 <= k < n ==> a[k] == null)
                && live == old(live) + {a} && failed == old(failed)
    {
      var ok := Grant();
      if !ok { return null; }
      a := new array?<byte>[n](_ => null);
      live := live + {a};
    }

    /** Frees something that is allocated and has not been freed yet. */
    method Free(ghost x: object)
      requires x in live
      modifies this
      ensures live == old(live) - {x} && failed == old(failed)
    {
      live := live - {x};
    }
  }

  /** vs in front of items. */
  function Prefix(vs: seq<Value>, items: Items): Items {
    if vs == [] then items else Item(vs[0], Prefix(vs[1..], items))
  }

  function ItemsOf(vs: seq<Value>): Items {
    Prefix(vs, NoItems)
  }

  function MemberPrefix(keys: seq<seq<byte>>, vs: seq<Value>, members: Members): Members
    requires |keys| == |vs|
  {
    if vs == [] then members else Member(keys[0], vs[0], MemberPrefix(keys[1..], vs[1..], members))
  }

  function MembersOf(keys: seq<seq<byte>>, vs: seq<Value>): Members
    requires |keys| == |vs|
  {
    MemberPrefix(keys, vs, NoMembers)
  }

  /** Everything the nodes of a list own. */
  ghost function Union(ks: seq<Node>): set<object>
    reads ks`Repr
  {
    set k, x | k in ks && x in k.Repr :: x
  }

  /** No two nodes of the list own anything in common. */
  ghost predicate Separate(ks: seq<Node>)
    reads ks`Repr
  {
    forall i, j :: 0 <= i < j < |ks| ==> ks[i].Repr !! ks[j].Repr
  }

  /** next and prev of a list whose ends point to nothing. */
  ghost predicate NextLinks(ks: seq<Node>)
    reads ks`next
  {
    forall k :: 0 <= k < |ks| ==> ks[k].next == if k + 1 < |ks| then ks[k + 1] else null
  }

  ghost predicate PrevLinks(ks: seq<Node>)
    reads ks`prev
  {
    forall k :: 0 <= k < |ks| ==> ks[k].prev == if k > 0 then ks[k - 1] else null
  }

  ghost predicate Links(ks: seq<Node>)
    reads ks`next, ks`prev
  {
    NextLinks(ks) && PrevLinks(ks)
  }

  /** What a valid node's list of children is: next leads from the first to the last one, and prev back. */
  lemma LinksMean(n: Node, k: nat)
    requires n.Valid() && k < |n.kids|
    ensures n.child == n.kids[0] && n.kids[0].prev == null && n.kids[|n.kids| - 1].next == null
    ensures k + 1 < |n.kids| ==> n.kids[k].next == n.kids[k + 1] && n.kids[k + 1].prev == n.kids[k]
  {
    hide Node.Valid, Union, Separate, Node.StringsOk;
    Unfold(n);
    NextIs(n.kids, 0);
    NextIs(n.kids, k);
    NextIs(n.kids, |n.kids| - 1);
    if k + 1 < |n.kids| {
      NextIs(n.kids, k + 1);
    }
  }

  lemma NextIs(ks: seq<Node>, i: nat)
    requires Links(ks) && i < |ks|
    ensures ks[i].next == if i + 1 < |ks| then ks[i + 1] else null
    ensures ks[i].prev == if i > 0 then ks[i - 1] else null
  {
  }

  /** The kinds by number (cJSON.h:33-40), and the value of a node of each kind. */
  lemma KindsMean(n: Node)
    requires n.Valid()
    ensures n.kind == 0 ==> n.Tree() == False
    ensures n.kind == 1 ==> n.Tree() == True
    ensures n.kind == 2 ==> n.Tree() == Null
    ensures n.kind == 3 ==> n.Tree() == Number(n.valuedouble)
    ensures n.kind == 4 ==> n.Tree() == Str(n.text)
    ensures n.kind == 5 ==> n.Tree() == Arr(ItemsOf(n.Values()))
    ensures n.kind == 6 ==> n.Tree() == Obj(MembersOf(n.Keys(), n.Values()))
  {
    hide Node.Valid, ItemsOf, MembersOf;
  }

  // ---------- Lists of children ----------

  lemma UnionAppend(ks: seq<Node>, n: Node)
    ensures Union(ks + [n]) == Union(ks) + n.Repr
  {
  }

  lemma Unfold(n: Node)
    requires n.Valid()
    ensures n.Shape() && forall k <- n.kids :: k.Valid()
  {
  }

  lemma Fold(n: Node)
    requires n.Shape() && forall k <- n.kids :: k.Valid()
    ensures n.Valid()
  {
  }

  lemma SeparateAppend(ks: seq<Node>, n: Node)
    requires Separate(ks) && forall k <- ks :: k.Repr !! n.Repr
    ensures Separate(ks + [n])
  {
  }

  /** All but the last node of the list point to the next one. */
  ghost predicate ForwardLinks(ks: seq<Node>)
    reads ks`next
  {
    forall k :: 0 <= k < |ks| - 1 ==> ks[k].next == ks[k + 1]
  }

  lemma NextAppend(ks: seq<Node>, n: Node, k: nat)
    requires ForwardLinks(ks) && (ks != [] ==> ks[|ks| - 1].next == n) && n.next == null
    requires k < |ks + [n]|
    ensures (ks + [n])[k].next == if k + 1 < |ks + [n]| then (ks + [n])[k + 1] else null
  {
    var all := ks + [n];
    if k == |ks| {
      assert all[k] == n;
    } else if k == |ks| - 1 {
      assert all[k] == ks[k] && all[k + 1] == n;
    } else {
      assert all[k] == ks[k] && all[k + 1] == ks[k + 1] && ks[k].next == ks[k + 1];
    }
  }

  lemma PrevAppend(ks: seq<Node>, n: Node, k: nat)
    requires PrevLinks(ks) && n.prev == (if ks == [] then null else ks[|ks| - 1]) && k < |ks + [n]|
    ensures (ks + [n])[k].prev == if k > 0 then (ks + [n])[k - 1] else null
  {
    var all := ks + [n];
    if k == |ks| {
      assert all[k] == n && (k > 0 ==> all[k - 1] == ks[k - 1]);
    } else {
      assert all[k] == ks[k] && ks[k].prev == (if k > 0 then ks[k - 1] else null);
      assert k > 0 ==> all[k - 1] == ks[k - 1];
    }
  }

  /** A node that is linked behind the last one of the list. */
  lemma LinksAppend(ks: seq<Node>, n: Node)
    requires ForwardLinks(ks) && PrevLinks(ks)
    requires ks != [] ==> ks[|ks| - 1].next == n
    requires n.next == null && n.prev == if ks == [] then null else ks[|ks| - 1]
    ensures Links(ks + [n])
  {
    hide ForwardLinks, PrevLinks, NextLinks;
    var all := ks + [n];
    forall k: nat | k < |all|
      ensures all[k].next == if k + 1 < |all| then all[k + 1] else null
      ensures all[k].prev == if k > 0 then all[k - 1] else null
    {
      NextAppend(ks, n, k);
      PrevAppend(ks, n, k);
    }
    LinksAt(all);
  }

  /** What every node of a linked list points to. */
  lemma LinksAt(ks: seq<Node>)
    requires forall k: nat :: k < |ks| ==> ks[k].next == if k + 1 < |ks| then ks[k + 1] else null
    requires forall k: nat :: k < |ks| ==> ks[k].prev == if k > 0 then ks[k - 1] else null
    ensures Links(ks)
  {
  }

  ghost predicate Distinct(ks: seq<Node>) {
    forall i, j :: 0 <= i < j < |ks| ==> ks[i] != ks[j]
  }

  /** What the children of a node own is apart from the node and from the other children. */
  lemma KidsApart(parent: Node)
    requires parent.Shape()
    ensures forall k <- parent.kids :: k.Repr <= parent.Repr && k in k.Repr && parent !in k.Repr
    ensures forall k <- parent.kids, l <- parent.kids :: k != l ==> l !in k.Repr
    ensures Distinct(parent.kids)
  {
    hide Node.Own, Links, Union, Node.StringsOk;
    var ks := parent.kids;
    assert Separate(ks);
    forall k, l | k in ks && l in ks && k != l
      ensures l !in k.Repr
    {
      var i :| 0 <= i < |ks| && ks[i] == k;
      var j :| 0 <= j < |ks| && ks[j] == l;
      assert i < j || j < i;
    }
  }

  lemma SelfIn(n: Node)
    requires n.Valid()
    ensures n in n.Repr
  {
  }

  /** A node whose list has grown by one. */
  lemma ShapeAppend(parent: Node, ks: seq<Node>, item: Node, before: set<object>)
    requires parent.kids == ks + [item] && Links(ks + [item]) && parent.child == (ks + [item])[0]
    requires parent.Repr == before + item.Repr && before == parent.Own() + Union(ks) && before !! item.Repr
    requires item in item.Repr && parent.StringsOk() && Separate(ks)
    requires forall k <- ks :: k in k.Repr && k.Repr <= before && parent.Own() !! k.Repr
    ensures parent.Shape()
  {
    hide Links, Union, Separate, Node.StringsOk;
    UnionAppend(ks, item);
    SeparateAppend(ks, item);
    assert parent in parent.Own();
    forall k | k in parent.kids
      ensures k in parent.Repr && parent !in k.Repr && k.Repr < parent.Repr && k in k.Repr && parent.Own() !! k.Repr
    {
      assert k in ks || k == item;
    }
  }

  function IfAny(n: Node?): set<Node> {
    if n == null then {} else {n}
  }

  /** item becomes the last child (suffix_object, or the first child). */
  method Append(parent: Node, last: Node?, item: Node)
    requires parent.Valid() && item.Valid() && parent.Repr !! item.Repr
    requires item.next == null && item.prev == null
    requires last == if parent.kids == [] then null else parent.kids[|parent.kids| - 1]
    modifies parent`child, parent`kids, parent`Repr, IfAny(last)`next, item`prev
    ensures parent.Valid() && parent.kids == old(parent.kids) + [item]
    ensures parent.Repr == old(parent.Repr) + item.Repr && item.Repr == old(item.Repr)
    ensures item.Valid() && item.Tree() == old(item.Tree())
    ensures parent.Values() == old(parent.Values()) + [old(item.Tree())]
    ensures parent.Keys() == old(parent.Keys()) + [item.key]
  {
    hide Node.Valid, Node.Tree, Node.Values, Node.Keys, Node.StringsOk, Node.Own, Links, PrevLinks, Separate, Union;
    Unfold(parent);
    KidsApart(parent);
    SelfIn(item);
    SelfIn(parent);
    ghost var ks, before := parent.kids, parent.Repr;
    LinksBoth(ks);
    if last == null {
      parent.child := item;
    } else {
      last.next := item;
      item.prev := last;
    }
    parent.kids := parent.kids + [item];
    parent.Repr := parent.Repr + item.Repr;
    assert item.Valid();
    forall k | k in ks
      ensures k.Valid()
      ensures k.Tree() == old(k.Tree()) && k.key == old(k.key)
    {
      assert old(k.Valid()) && item !in k.Repr && parent !in k.Repr && (last != null && last in k.Repr ==> k == last);
    }
    assert ForwardLinks(ks);
    LinksAppend(ks, item);
    ShapeAppend(parent, ks, item, before);
    Fold(parent);
  }

  lemma LinksBoth(ks: seq<Node>)
    ensures Links(ks) <==> NextLinks(ks) && PrevLinks(ks)
  {
  }
}
