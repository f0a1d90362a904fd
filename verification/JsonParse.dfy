/**
 The parser on nodes.  Every node is linked to its parent before its contents are parsed, so whatever
 has been allocated when something fails, it hangs on the root, and deleting the root frees all of it.
 Any allocation may fail.
 */
module JsonParse {
  import opened Bytes
  import opened JsonText
  import opened JsonRoundTrip
  import opened JsonStrings
  import opened JsonNodes

  /** The arguments of a parse function: an empty node to fill. */
  ghost predicate Ready(h: Memory, item: Node)
    reads item, item.Repr
  {
    item.Valid() && item.kids == [] && item.valuestring == null && h !in item.Repr
  }

  /** What has been allocated in between is what the node owns more. */
  predicate Account(repr0: set<object>, live0: set<object>, repr1: set<object>, live1: set<object>) {
    repr0 <= repr1 && live1 == live0 + (repr1 - repr0)
  }

  lemma AccountOn(repr0: set<object>, live0: set<object>, repr1: set<object>, live1: set<object>, repr2: set<object>,
                  live2: set<object>)
    requires Account(repr0, live0, repr1, live1) && Account(repr1, live1, repr2, live2)
    ensures Account(repr0, live0, repr2, live2)
  {
  }

  lemma AccountSame(repr: set<object>, live: set<object>)
    ensures Account(repr, live, repr, live)
  {
  }

  /** What belongs to the node besides stays as it is. */
  lemma AccountWith(more: set<object>, repr0: set<object>, live0: set<object>, repr1: set<object>, live1: set<object>)
    requires Account(repr0, live0, repr1, live1) && more !! repr1
    ensures Account(more + repr0, live0, more + repr1, live1)
    ensures (more + repr1) - (more + repr0) == repr1 - repr0
  {
  }

  /** What every parse function keeps: the node is valid, and what is new in it is what has been allocated. */
  twostate predicate Filled(h: Memory, item: Node)
    reads h, item, item.Repr
  {
    && item.Valid() && h !in item.Repr
    && Account(old(item.Repr), old(h.live), item.Repr, h.live) && fresh(item.Repr - old(item.Repr))
    && (old(h.failed) ==> h.failed)
  }

  /** The result of a parse function that should give `r`; if it fails for lack of memory, anything may be missing. */
  ghost predicate Answers<T>(r: Result<T>, ok: bool, v: T, end: nat, failed0: bool, failed1: bool) {
    && (ok ==> r == Ok(v, end) && failed1 == failed0)
    && (!ok ==> r == Fail(end) || failed1)
  }

  /** Skips blanks and control characters (cJSON.c:261). */
  method SkipBlanks(t: seq<byte>, i: nat) returns (p: nat)
    requires i <= |t|
    ensures p == Skip(t, i)
  {
    p := i;
    while 0 < At(t, p) <= SPACE
      invariant i <= p <= |t| && Skip(t, p) == Skip(t, i)
      decreases |t| - p
    {
      p := p + 1;
    }
  }

  /** parse_string: the string goes to valuestring. */
  method ParseStringNode(h: Memory, item: Node, t: seq<byte>, i: nat) returns (ok: bool, end: nat)
    requires i <= |t| && Ready(h, item) && !ParseString(t, i).Ragged?
    modifies h, item`kind, item`valuestring, item`text, item`Repr
    ensures Filled(h, item) && item.kids == []
    ensures ok ==> item.valuestring != null && item.kind == KIND_STRING
    ensures !ok ==> item.valuestring == null
    ensures Answers(ParseString(t, i), ok, item.text, end, old(h.failed), h.failed)
  {
    hide ParseString, Node.Valid, CString;
    if At(t, i) != QUOTE {
      NotAString(t, i);
      return false, i;
    }
    EmptyNode(item);
    var granted := h.Grant();
    if !granted { return false, i; }
    var out;
    ok, out, end := ParseStringInto(t, i);
    NoFailure(t, i);
    h.live := h.live + {out};
    item.valuestring := out;
    item.text := ParseString(t, i).value;
    item.kind := KIND_STRING;
    ghost var before := item.Repr;
    item.Repr := item.Repr + {out};
    NewString(item, before);
  }

  /** A node without children that has got a string. */
  lemma NewString(item: Node, before: set<object>)
    requires item.kids == [] && item.child == null && item.valuestring != null && item.valuestring !in before
    requires item.Repr == before + {item.valuestring}
    requires before == {item} + if item.name == null then {} else {item.name}
    requires CString(item.valuestring, item.text) && (item.name != null ==> CString(item.name, item.key))
    ensures item.Valid()
  {
    hide CString;
    assert Union([]) == {};
  }

  /** What a node without children and value owns. */
  lemma EmptyNode(item: Node)
    requires item.Valid() && item.kids == [] && item.valuestring == null
    ensures item.child == null && item.Repr == {item} + if item.name == null then {} else {item.name}
    ensures item.name != null ==> CString(item.name, item.key)
  {
    assert Union([]) == {};
  }

  lemma NotAString(t: seq<byte>, i: nat)
    requires i <= |t| && At(t, i) != QUOTE
    ensures ParseString(t, i) == Fail(i)
  {
  }

  lemma NoFailure(t: seq<byte>, i: nat)
    requires i <= |t| && At(t, i) == QUOTE
    ensures !ParseString(t, i).Fail?
  {
    hide Pieces, Transcode;
  }

  // ---------- Numbers ----------

  lemma {:induction false} Pow10Next(e: int)
    ensures Pow10(e + 1) == 10.0 * Pow10(e)
    decreases if e < 0 then -e else e
  {
  }

  lemma {:induction false} Pow10Sum(a: int, b: int)
    ensures Pow10(a + b) == Pow10(a) * Pow10(b)
    decreases if b < 0 then -b else b
  {
    hide Pow10;
    PowerZero();
    if b > 0 {
      Pow10Sum(a, b - 1);
      Pow10Next(a + (b - 1));
      Pow10Next(b - 1);
      Rearrange(Pow10(a), Pow10(b - 1));
    } else if b < 0 {
      Pow10Sum(a, b + 1);
      Pow10Next(a + b);
      Pow10Next(b);
      assert a + b + 1 == a + (b + 1);
      Rearrange(Pow10(a), Pow10(b));
    }
  }

  lemma Rearrange(x: real, y: real)
    ensures x * (10.0 * y) == 10.0 * (x * y)
  {
  }

  /** Moving the decimal point at the end is moving it in the fraction. */
  lemma ScaleAtEnd(n: real, f: real, scale: int, e: int)
    ensures (n * Pow10(0 - scale) + f) * Pow10(scale + e) == (n + f * Pow10(scale)) * Pow10(e)
  {
    hide Pow10;
    Pow10Sum(scale, e);
    Pow10Sum(0 - scale, scale);
    PowerZero();
    ScaleArithmetic(n, f, Pow10(0 - scale), Pow10(scale), Pow10(e));
  }

  lemma PowerZero()
    ensures Pow10(0) == 1.0
  {
  }

  lemma ScaleArithmetic(n: real, f: real, x: real, y: real, z: real)
    requires x * y == 1.0
    ensures (n * x + f) * (y * z) == (n + f * y) * z
  {
    assert (n * x) * y == n * (x * y) == n;
    assert (n * x + f) * y == (n * x) * y + f * y == n + f * y;
    assert (n * x + f) * (y * z) == ((n * x + f) * y) * z;
  }

  /** Digits of the integer part or of the exponent. */
  method ReadDigits(t: seq<byte>, start: nat) returns (n: nat, p: nat)
    requires start <= |t|
    ensures p == DigitsEnd(t, start) && n == DigitsValue(t, start, p)
  {
    n, p := 0, start;
    while IsDigit(At(t, p))
      invariant start <= p <= |t| && DigitsEnd(t, p) == DigitsEnd(t, start)
      invariant forall k :: start <= k < p ==> IsDigit(t[k])
      invariant n == DigitsValue(t, start, p)
      decreases |t| - p
    {
      n := n * 10 + DigitOf(t[p]);
      p := p + 1;
    }
  }

  function FractionDigits(t: seq<byte>, c: nat): nat
    requires c <= |t|
  {
    if HasFraction(t, c) then DigitsValue(t, c + 1, FractionEnd(t, c)) else 0
  }

  function FractionScale(t: seq<byte>, c: nat): int
    requires c <= |t|
  {
    if HasFraction(t, c) then c + 1 - FractionEnd(t, c) else 0
  }

  lemma FractionParts(t: seq<byte>, c: nat)
    requires c <= |t|
    ensures FractionValue(t, c) == FractionDigits(t, c) as real * Pow10(FractionScale(t, c))
  {
  }

  /** Digits of the fraction: each makes the number ten times as large and the scale one less. */
  method ReadFraction(t: seq<byte>, c: nat, n0: real) returns (n: real, scale: int, p: nat)
    requires c <= |t|
    ensures p == FractionEnd(t, c) && scale == FractionScale(t, c)
    ensures n == n0 * Pow10(0 - scale) + FractionDigits(t, c) as real
  {
    hide Pow10;
    PowerZero();
    n, scale, p := n0, 0, c;
    if HasFraction(t, c) {
      p := p + 1;
      ghost var f: nat := 0;
      while IsDigit(At(t, p))
        invariant c + 1 <= p <= |t| && DigitsEnd(t, p) == DigitsEnd(t, c + 1)
        invariant forall k :: c + 1 <= k < p ==> IsDigit(t[k])
        invariant f == DigitsValue(t, c + 1, p) && scale == c + 1 - p
        invariant n == n0 * Pow10(0 - scale) + f as real
        decreases |t| - p
      {
        Pow10Next(0 - scale);
        OneMoreDigit(n0, Pow10(0 - scale), f, DigitOf(t[p]));
        f := f * 10 + DigitOf(t[p]);
        n := n * 10.0 + DigitOf(t[p]) as real;
        p, scale := p + 1, scale - 1;
      }
    }
  }

  lemma OneMoreDigit(n: real, x: real, f: nat, d: nat)
    ensures (n * x + f as real) * 10.0 + d as real == n * (10.0 * x) + (f * 10 + d) as real
  {
    Rearrange(n, x);
  }

  method ReadExponent(t: seq<byte>, d: nat) returns (e: int, p: nat)
    requires d <= |t|
    ensures e == ExponentValue(t, d) && p == ExponentEnd(t, d)
  {
    hide DigitsEnd, DigitsValue;
    e, p := 0, d;
    if HasExponent(t, d) {
      var signsubscale: int := 1;
      p := p + 1;
      if At(t, p) == PLUS {
        p := p + 1;
      } else if At(t, p) == MINUS {
        signsubscale, p := -1, p + 1;
      }
      var subscale;
      subscale, p := ReadDigits(t, p);
      e := subscale * signsubscale;
    }
  }

  /** parse_number (cJSON.c:96-115), with real arithmetic: sign * n * 10 ^ (scale + exponent). */
  method ParseNumber(t: seq<byte>, i: nat) returns (d: real, num: nat)
    requires i <= |t|
    ensures d == NumberValue(t, i) && num == NumberEnd(t, i)
  {
    hide Pow10, DigitsEnd, DigitsValue, FractionEnd, ExponentEnd, ExponentValue, FractionValue, FractionDigits,
         FractionScale;
    num := i;
    var negative := At(t, num) == MINUS;
    if negative {
      num := num + 1;
    }
    if At(t, num) == ZERO {
      num := num + 1;
    }
    var n := 0;
    NoDigitsYet(t, num);
    if IsDigit(At(t, num)) && At(t, num) != ZERO {
      n, num := ReadDigits(t, num);
    }
    ghost var c := num;
    assert c == IntEnd(t, i) && n == DigitsValue(t, IntStart(t, i), c);
    var m, scale, e;
    m, scale, num := ReadFraction(t, num, n as real);
    e, num := ReadExponent(t, num);
    ScaleAtEnd(n as real, FractionDigits(t, c) as real, scale, e);
    FractionParts(t, c);
    d := m * Pow10(scale + e);
    if negative {
      d := -d;
    }
  }

  lemma NoDigitsYet(t: seq<byte>, j: nat)
    ensures j <= |t| ==> DigitsValue(t, j, j) == 0
  {
  }

  // ---------- Arrays ----------

  /** vs in front of what has been parsed. */
  function Attach(vs: seq<Value>, r: Result<Items>): Result<Items> {
    if r.Ok? then Ok(Prefix(vs, r.value), r.end) else r
  }

  /** The rest of an array after the values vs, from p on. */
  function AfterItems(t: seq<byte>, vs: seq<Value>, p: nat): Result<Items>
    requires p <= |t|
  {
    if At(t, p) == RBRACKET then Ok(ItemsOf(vs), p + 1)
    else if At(t, p) != COMMA then Fail(p)
    else Attach(vs, ParseItems(t, Skip(t, p + 1)))
  }

  lemma {:induction false} PrefixAppend(vs: seq<Value>, v: Value, items: Items)
    ensures Prefix(vs + [v], items) == Prefix(vs, Item(v, items))
    decreases |vs|
  {
    if vs != [] {
      assert (vs + [v])[1..] == vs[1..] + [v];
      PrefixAppend(vs[1..], v, items);
    } else {
      assert [v][1..] == [];
    }
  }

  /** One more value. */
  lemma ItemsStep(t: seq<byte>, vs: seq<Value>, q: nat)
    requires q <= |t|
    ensures match ParseValue(t, q)
            case Ok(v, e) => Attach(vs, ParseItems(t, q)) == AfterItems(t, vs + [v], Skip(t, e))
            case Fail(at) => Attach(vs, ParseItems(t, q)) == Fail(at)
            case Ragged => Attach(vs, ParseItems(t, q)) == Ragged
  {
    hide ParseValue, Skip, Prefix;
    var r := ParseValue(t, q);
    if r.Ok? {
      var p := Skip(t, r.end);
      PrefixAppend(vs, r.value, NoItems);
      if At(t, p) == COMMA && ParseItems(t, Skip(t, p + 1)).Ok? {
        PrefixAppend(vs, r.value, ParseItems(t, Skip(t, p + 1)).value);
      }
    }
  }

  // ---------- Children ----------

  /** A new node at the end of the list of children. */
  method AddChild(h: Memory, parent: Node, last: Node?) returns (child: Node?)
    requires parent.Valid() && h !in parent.Repr
    requires last == if parent.kids == [] then null else parent.kids[|parent.kids| - 1]
    modifies h, parent`child, parent`kids, parent`Repr, IfAny(last)`next
    ensures Filled(h, parent)
    ensures child == null ==> h.failed && parent.Repr == old(parent.Repr)
    ensures child != null ==>
              && fresh(child) && Ready(h, child) && child.Repr == {child} && child.key == [] && child.name == null
              && parent.kids == old(parent.kids) + [child] && parent.Repr == old(parent.Repr) + {child}
              && parent.ValuesTo(|old(parent.kids)|) == old(parent.Values())
              && parent.Keys() == old(parent.Keys()) + [[]]
              && h.failed == old(h.failed)
  {
    hide Node.Valid, Node.Tree, Node.Values, Node.Keys, Node.ValuesTo, Node.KeysTo;
    child := h.NewItem();
    if child == null { return; }
    Append(parent, last, child);
    ValuesButLast(parent);
  }

  lemma ValuesButLast(parent: Node)
    requires parent.Valid() && parent.kids != []
    ensures var n := |parent.kids| - 1;
            parent.ValuesTo(n) == parent.Values()[..n] && parent.Values() == parent.ValuesTo(n) + [parent.kids[n].Tree()]
  {
    hide Node.Tree;
  }

  /** The parent of a node that has been filled is valid again when it owns what is new. */
  lemma Regrown(parent: Node, ks: seq<Node>, child: Node, before: set<object>)
    requires parent.kids == ks + [child] && Links(ks + [child]) && parent.child == (ks + [child])[0]
    requires parent.Repr == before + child.Repr && before == parent.Own() + Union(ks) && before !! child.Repr
    requires child.Valid() && parent.StringsOk() && Separate(ks)
    requires forall k <- ks :: k in k.Repr && k.Repr <= before && parent.Own() !! k.Repr && k.Valid()
    ensures parent.Valid()
  {
    hide Node.Valid, Links, Union, Separate, Node.StringsOk, Node.Own;
    SelfIn(child);
    ShapeAppend(parent, ks, child, before);
    Fold(parent);
  }

  /** What a node owns besides its last child. */
  lemma LastApart(parent: Node, ks: seq<Node>, child: Node)
    requires parent.Valid() && parent.kids == ks + [child]
    ensures parent.Repr == parent.Own() + Union(ks) + child.Repr && (parent.Own() + Union(ks)) !! child.Repr
    ensures parent.StringsOk() && Separate(ks) && Links(ks + [child]) && parent.child == (ks + [child])[0]
    ensures forall k <- ks :: k in k.Repr && k.Repr <= parent.Own() + Union(ks) && parent.Own() !! k.Repr && k.Valid()
    ensures child.Valid() && child !in ks && parent in parent.Own()
  {
    hide Node.Valid, Links, Node.StringsOk, Separate, Union, Node.Own;
    Unfold(parent);
    UnionAppend(ks, child);
    assert forall k <- ks :: k in parent.kids;
    assert child in parent.kids;
    SeparateInit(ks, child);
    InUnion(ks);
    OwnIs(parent);
  }

  lemma OwnIs(n: Node)
    ensures n in n.Own()
  {
  }

  lemma InUnion(ks: seq<Node>)
    ensures forall k <- ks :: k.Repr <= Union(ks)
  {
  }

  lemma SeparateInit(ks: seq<Node>, n: Node)
    requires Separate(ks + [n]) && forall k <- ks + [n] :: k in k.Repr
    ensures Separate(ks) && Union(ks) !! n.Repr && n !in ks
  {
    var all := ks + [n];
    forall i, j | 0 <= i < j < |ks|
      ensures ks[i].Repr !! ks[j].Repr
    {
      assert all[i] == ks[i] && all[j] == ks[j];
    }
    forall k | k in ks
      ensures k.Repr !! n.Repr && k != n
    {
      var i :| 0 <= i < |ks| && ks[i] == k;
      assert all[i] == k && all[|ks|] == n;
      assert k in all && n in all;
    }
  }

  // ---------- Values ----------

  /** parse_value (cJSON.c:287-299) */
  method ParseNode(h: Memory, item: Node, t: seq<byte>, i: nat) returns (ok: bool, end: nat)
    requires i <= |t| && Ready(h, item) && !ParseValue(t, i).Ragged?
    modifies h, item`kind, item`valuestring, item`valuedouble, item`child, item`kids, item`text, item`Repr
    ensures Filled(h, item)
    ensures Answers(ParseValue(t, i), ok, item.Tree(), end, old(h.failed), h.failed)
    decreases |t| - i, 1
  {
    hide Node.Valid, Node.Tree, ParseItems, ParseMembers, ParseString, NumberValue, NumberEnd;
    if HasAt(t, i, NULL_TEXT) {
      item.kind := KIND_NULL;
      PlainNode(item);
      return true, i + 4;
    }
    if HasAt(t, i, FALSE_TEXT) {
      item.kind := KIND_FALSE;
      PlainNode(item);
      return true, i + 5;
    }
    if HasAt(t, i, TRUE_TEXT) {
      item.kind := KIND_TRUE;
      PlainNode(item);
      return true, i + 4;
    }
    if At(t, i) == QUOTE {
      ok, end := ParseStringNode(h, item, t, i);
      PlainNode(item);
    } else if At(t, i) == MINUS || IsDigit(At(t, i)) {
      item.valuedouble, end := ParseNumber(t, i);
      item.kind := KIND_NUMBER;
      PlainNode(item);
      ok := true;
    } else if At(t, i) == LBRACKET {
      ok, end := ParseArray(h, item, t, i);
    } else if At(t, i) == LBRACE {
      ok, end := ParseObject(h, item, t, i);
    } else {
      ok, end := false, i;
    }
  }

  lemma PlainNode(item: Node)
    requires item.Valid()
    ensures item.kind == KIND_NULL ==> item.Tree() == Null
    ensures item.kind == KIND_FALSE ==> item.Tree() == False
    ensures item.kind == KIND_TRUE ==> item.Tree() == True
    ensures item.kind == KIND_NUMBER ==> item.Tree() == Number(item.valuedouble)
    ensures item.kind == KIND_STRING ==> item.Tree() == Str(item.text)
    ensures item.kind == KIND_ARRAY ==> item.Tree() == Arr(ItemsOf(item.Values()))
    ensures item.kind == KIND_OBJECT ==> item.Tree() == Obj(MembersOf(item.Keys(), item.Values()))
  {
    hide Node.Valid, ItemsOf, MembersOf;
  }

  /** Parses a value into the last child of a node. */
  method FillChild(h: Memory, parent: Node, child: Node, ghost ks: seq<Node>, t: seq<byte>, p: nat)
    returns (ok: bool, end: nat)
    requires p <= |t| && parent.Valid() && parent.kids == ks + [child] && h !in parent.Repr
    requires Ready(h, child) && !ParseValue(t, p).Ragged?
    modifies h, parent`Repr
    modifies child`kind, child`valuestring, child`valuedouble, child`child, child`kids, child`text, child`Repr
    ensures Filled(h, parent) && parent.kids == ks + [child]
    ensures parent.Values() == old(parent.ValuesTo(|ks|)) + [parent.Values()[|ks|]]
    ensures Answers(ParseValue(t, p), ok, parent.Values()[|ks|], end, old(h.failed), h.failed)
    decreases |t| - p, 2
  {
    hide Node.Valid, Node.Tree, ParseValue, Links, Union, Separate, Node.StringsOk, Node.Own, Account, Answers;
    LastApart(parent, ks, child);
    SelfIn(child);
    ghost var before := parent.Own() + Union(ks);
    ghost var vs := parent.ValuesTo(|ks|);
    ok, end := ParseNode(h, child, t, p);
    forall k | k in ks
      ensures k.Valid() && k.Tree() == old(k.Tree())
    {
      assert old(k.Valid()) && child !in k.Repr && h !in k.Repr;
    }
    AccountWith(before, old(child.Repr), old(h.live), child.Repr, h.live);
    Reattach(parent, child, ks, before);
    ValuesButLast(parent);
    assert vs == parent.ValuesTo(|ks|);
  }

  /** A node owns what is new in its last child. */
  ghost method Reattach(parent: Node, child: Node, ks: seq<Node>, before: set<object>)
    requires parent.kids == ks + [child] && Links(ks + [child]) && parent.child == (ks + [child])[0]
    requires before == parent.Own() + Union(ks) && before !! child.Repr
    requires child.Valid() && parent.StringsOk() && Separate(ks) && parent !in child.Repr && parent !in ks
    requires forall k <- ks :: k in k.Repr && k.Repr <= before && parent.Own() !! k.Repr && k.Valid()
    modifies parent`Repr
    ensures parent.Valid() && parent.Repr == before + child.Repr && child.Repr == old(child.Repr)
    ensures child.Valid() && child.Tree() == old(child.Tree())
    ensures forall k <- ks :: k.Valid() && k.Tree() == old(k.Tree())
  {
    hide Node.Valid, Node.Tree, Links, Union, Separate, Node.StringsOk, Node.Own;
    OwnIs(parent);
    SelfIn(child);
    assert forall k <- ks :: parent !in k.Repr;
    parent.Repr := before + child.Repr;
    assert forall k <- ks :: k.Repr == old(k.Repr);
    Regrown(parent, ks, child, before);
  }

  /** The last child. */
  ghost function LastOf(item: Node): Node?
    reads item`kids
  {
    if item.kids == [] then null else item.kids[|item.kids| - 1]
  }

  lemma ArrayValue(t: seq<byte>, i: nat)
    requires i < |t| && At(t, i) == LBRACKET
    ensures var p := Skip(t, i + 1);
            if At(t, p) == RBRACKET then ParseValue(t, i) == Ok(Arr(NoItems), p + 1)
            else ParseValue(t, i) == (match ParseItems(t, p)
                                      case Ok(items, end) => Ok(Arr(items), end)
                                      case Fail(at) => Fail(at)
                                      case Ragged => Ragged)
  {
    hide Skip, ParseItems;
    FirstOf(t, i, NULL_TEXT);
    FirstOf(t, i, FALSE_TEXT);
    FirstOf(t, i, TRUE_TEXT);
  }

  lemma NothingAttached(r: Result<Items>)
    ensures Attach([], r) == r
  {
  }

  /** One more item: it is linked, then parsed (cJSON.c:329-332, :336-340). */
  method ParseItem(h: Memory, item: Node, last: Node?, t: seq<byte>, q: nat)
    returns (ok: bool, child: Node?, end: nat)
    requires q <= |t| && item.Valid() && h !in item.Repr && last == LastOf(item) && !ParseValue(t, q).Ragged?
    modifies h, item`child, item`kids, item`Repr, IfAny(last)`next
    ensures Filled(h, item) && (h.failed ==> !ok || old(h.failed))
    ensures ok ==>
              && child != null && fresh(child) && item.kids == old(item.kids) + [child]
              && ParseValue(t, q).Ok? && end == ParseValue(t, q).end && h.failed == old(h.failed)
              && item.Values() == old(item.Values()) + [ParseValue(t, q).value]
    ensures !ok ==> ParseValue(t, q) == Fail(end) || h.failed
    decreases |t| - q, 3
  {
    hide Node.Valid, Node.Tree, ParseValue, Node.Values, Node.ValuesTo, Node.Keys, Account;
    ghost var ks := item.kids;
    child := AddChild(h, item, last);
    if child == null {
      return false, child, q;
    }
    ghost var repr, live := item.Repr, h.live;
    ok, end := FillChild(h, item, child, ks, t, q);
    AccountOn(old(item.Repr), old(h.live), repr, live, item.Repr, h.live);
  }

  /** The items after the first, each after a comma (cJSON.c:334-344). */
  method ParseMoreItems(h: Memory, item: Node, last: Node?, t: seq<byte>, from: nat) returns (ok: bool, end: nat)
    requires from <= |t| && item.Valid() && h !in item.Repr && last == LastOf(item)
    requires !AfterItems(t, item.Values(), from).Ragged?
    modifies h, item`child, item`kids, item`Repr, IfAny(last)`next
    ensures Filled(h, item)
    ensures Answers(old(AfterItems(t, item.Values(), from)), ok, ItemsOf(item.Values()), end, old(h.failed), h.failed)
    decreases |t| - from, 4
  {
    hide Node.Valid, Node.Tree, ParseValue, ParseItems, Skip, Prefix, Node.Values, Account;
    ghost var r := AfterItems(t, item.Values(), from);
    var value, child := from, last;
    AccountSame(item.Repr, h.live);
    while At(t, value) == COMMA
      invariant from <= value <= |t| && child == LastOf(item)
      invariant Filled(h, item) && h.failed == old(h.failed)
      invariant child == last || fresh(child)
      invariant r == AfterItems(t, item.Values(), value)
      decreases |t| - value
    {
      var q := SkipBlanks(t, value + 1);
      ItemsStep(t, item.Values(), q);
      ghost var repr, live := item.Repr, h.live;
      ok, child, end := ParseItem(h, item, child, t, q);
      AccountOn(old(item.Repr), old(h.live), repr, live, item.Repr, h.live);
      if !ok { return; }
      value := SkipBlanks(t, end);
    }
    ok, end := At(t, value) == RBRACKET, if At(t, value) == RBRACKET then value + 1 else value;
  }

  /** All items, from the first one on (cJSON.c:329-344). */
  method ParseAllItems(h: Memory, item: Node, t: seq<byte>, p: nat) returns (ok: bool, end: nat)
    requires p <= |t| && item.Valid() && item.kids == [] && h !in item.Repr && !ParseItems(t, p).Ragged?
    modifies h, item`child, item`kids, item`Repr
    ensures Filled(h, item)
    ensures Answers(ParseItems(t, p), ok, ItemsOf(item.Values()), end, old(h.failed), h.failed)
    decreases |t| - p, 5
  {
    hide Node.Valid, Node.Tree, ParseItems, Skip, Prefix, Node.Values, Account;
    NoValues(item);
    AccountSame(item.Repr, h.live);
    NothingAttached(ParseItems(t, p));
    ItemsStep(t, [], p);
    var child;
    ok, child, end := ParseItem(h, item, null, t, p);
    if !ok { return; }
    var value := SkipBlanks(t, end);
    ghost var repr, live := item.Repr, h.live;
    ok, end := ParseMoreItems(h, item, child, t, value);
    AccountOn(old(item.Repr), old(h.live), repr, live, item.Repr, h.live);
  }

  /** parse_array (cJSON.c:320-345) */
  method ParseArray(h: Memory, item: Node, t: seq<byte>, i: nat) returns (ok: bool, end: nat)
    requires i < |t| && Ready(h, item) && At(t, i) == LBRACKET && !ParseValue(t, i).Ragged?
    modifies h, item`kind, item`child, item`kids, item`Repr
    ensures Filled(h, item)
    ensures Answers(ParseValue(t, i), ok, item.Tree(), end, old(h.failed), h.failed)
    decreases |t| - i, 0
  {
    hide Node.Valid, Node.Tree, ParseValue, ParseItems, Skip, Prefix, Node.Values, Account;
    ArrayValue(t, i);
    item.kind := KIND_ARRAY;
    PlainNode(item);
    NoValues(item);
    AccountSame(item.Repr, h.live);
    var p := SkipBlanks(t, i + 1);
    if At(t, p) == RBRACKET {
      NoneIsNone();
      return true, p + 1;
    }
    ok, end := ParseAllItems(h, item, t, p);
    PlainNode(item);
  }

  lemma NoValues(item: Node)
    requires item.Valid() && item.kids == []
    ensures item.Values() == [] && item.Keys() == []
  {
  }

  lemma NoneIsNone()
    ensures ItemsOf([]) == NoItems && MembersOf([], []) == NoMembers
  {
  }

  // ---------- Objects ----------

  datatype Pair = Pair(key: seq<byte>, value: Value)

  /** A name, a colon and a value. */
  function OnePair(t: seq<byte>, q: nat): (r: Result<Pair>)
    requires q <= |t|
    ensures r.Ok? ==> q < r.end <= |t|
  {
    match ParseString(t, q)
    case Fail(at) => Fail(at)
    case Ragged => Ragged
    case Ok(name, e) =>
      var c := Skip(t, e);
      if At(t, c) != COLON then Fail(c) else
      match ParseValue(t, Skip(t, c + 1))
      case Fail(at) => Fail(at)
      case Ragged => Ragged
      case Ok(v, end) => Ok(Pair(name, v), end)
  }

  function AttachPairs(keys: seq<seq<byte>>, vs: seq<Value>, r: Result<Members>): Result<Members>
    requires |keys| == |vs|
  {
    if r.Ok? then Ok(MemberPrefix(keys, vs, r.value), r.end) else r
  }

  /** The rest of an object after the members with these keys and values, from p on. */
  function AfterPairs(t: seq<byte>, keys: seq<seq<byte>>, vs: seq<Value>, p: nat): Result<Members>
    requires p <= |t| && |keys| == |vs|
  {
    if At(t, p) == RBRACE then Ok(MembersOf(keys, vs), p + 1)
    else if At(t, p) != COMMA then Fail(p)
    else AttachPairs(keys, vs, ParseMembers(t, Skip(t, p + 1)))
  }

  lemma {:induction false} PairPrefixAppend(keys: seq<seq<byte>>, vs: seq<Value>, key: seq<byte>, v: Value, members: Members)
    requires |keys| == |vs|
    ensures MemberPrefix(keys + [key], vs + [v], members) == MemberPrefix(keys, vs, Member(key, v, members))
    decreases |vs|
  {
    if vs != [] {
      assert (vs + [v])[1..] == vs[1..] + [v] && (keys + [key])[1..] == keys[1..] + [key];
      PairPrefixAppend(keys[1..], vs[1..], key, v, members);
    } else {
      assert [v][1..] == [] && [key][1..] == [];
    }
  }

  /** One more member. */
  lemma PairsStep(t: seq<byte>, keys: seq<seq<byte>>, vs: seq<Value>, q: nat)
    requires q <= |t| && |keys| == |vs|
    ensures match OnePair(t, q)
            case Ok(m, e) => AttachPairs(keys, vs, ParseMembers(t, q)) ==
                             AfterPairs(t, keys + [m.key], vs + [m.value], Skip(t, e))
            case Fail(at) => AttachPairs(keys, vs, ParseMembers(t, q)) == Fail(at)
            case Ragged => AttachPairs(keys, vs, ParseMembers(t, q)) == Ragged
  {
    hide ParseValue, Skip, MemberPrefix, ParseString;
    var r := OnePair(t, q);
    if r.Ok? {
      var p := Skip(t, r.end);
      PairPrefixAppend(keys, vs, r.value.key, r.value.value, NoMembers);
      if At(t, p) == COMMA && ParseMembers(t, Skip(t, p + 1)).Ok? {
        PairPrefixAppend(keys, vs, r.value.key, r.value.value, ParseMembers(t, Skip(t, p + 1)).value);
      }
    }
  }

  lemma ObjectValue(t: seq<byte>, i: nat)
    requires i < |t| && At(t, i) == LBRACE
    ensures var p := Skip(t, i + 1);
            if At(t, p) == RBRACE then ParseValue(t, i) == Ok(Obj(NoMembers), p + 1)
            else ParseValue(t, i) == (match ParseMembers(t, p)
                                      case Ok(members, end) => Ok(Obj(members), end)
                                      case Fail(at) => Fail(at)
                                      case Ragged => Ragged)
  {
    hide Skip, ParseMembers;
    FirstOf(t, i, NULL_TEXT);
    FirstOf(t, i, FALSE_TEXT);
    FirstOf(t, i, TRUE_TEXT);
  }

  lemma NoPairsAttached(r: Result<Members>)
    ensures AttachPairs([], [], r) == r
  {
  }

  /** Parses a string into the last child of a node and makes it the child's name (cJSON.c:417-419). */
  method NameChild(h: Memory, parent: Node, child: Node, ghost ks: seq<Node>, t: seq<byte>, p: nat)
    returns (ok: bool, end: nat)
    requires p <= |t| && parent.Valid() && parent.kids == ks + [child] && h !in parent.Repr
    requires Ready(h, child) && child.name == null && child.key == [] && !ParseString(t, p).Ragged?
    modifies h, parent`Repr
    modifies child`kind, child`valuestring, child`text, child`name, child`key, child`Repr
    ensures Filled(h, parent) && parent.kids == ks + [child]
    ensures parent.ValuesTo(|ks|) == old(parent.ValuesTo(|ks|)) && parent.Keys() == old(parent.KeysTo(|ks|)) + [child.key]
    ensures ok ==> Ready(h, child)
    ensures Answers(ParseString(t, p), ok, child.key, end, old(h.failed), h.failed)
    decreases |t| - p, 2
  {
    hide Node.Valid, Node.Tree, ParseString, Links, Union, Separate, Node.StringsOk, Node.Own, Account, Answers;
    LastApart(parent, ks, child);
    SelfIn(child);
    ghost var before := parent.Own() + Union(ks);
    ghost var vs, keys := parent.ValuesTo(|ks|), parent.KeysTo(|ks|);
    ok, end := NameNode(h, child, t, p);
    forall k | k in ks
      ensures k.Valid() && k.Tree() == old(k.Tree()) && k.key == old(k.key)
    {
      assert old(k.Valid()) && child !in k.Repr && h !in k.Repr;
    }
    AccountWith(before, old(child.Repr), old(h.live), child.Repr, h.live);
    Reattach(parent, child, ks, before);
    assert vs == parent.ValuesTo(|ks|);
    assert parent.Keys() == keys + [child.key];
  }

  /** A string that becomes the name of a node. */
  method NameNode(h: Memory, child: Node, t: seq<byte>, p: nat) returns (ok: bool, end: nat)
    requires p <= |t| && Ready(h, child) && child.name == null && child.key == [] && !ParseString(t, p).Ragged?
    modifies h, child`kind, child`valuestring, child`text, child`name, child`key, child`Repr
    ensures Filled(h, child)
    ensures ok ==> Ready(h, child)
    ensures Answers(ParseString(t, p), ok, child.key, end, old(h.failed), h.failed)
  {
    hide Node.Valid, ParseString, Account;
    ok, end := ParseStringNode(h, child, t, p);
    if ok {
      MoveToName(child);
    }
  }


  /** The string of a node becomes its name, and it has no string any more (cJSON.c:419). */
  method MoveToName(child: Node)
    requires child.Valid() && child.kids == [] && child.valuestring != null && child.name == null
    modifies child`name, child`valuestring, child`key, child`text
    ensures child.Valid() && child.name != null && child.valuestring == null && child.key == old(child.text)
  {
    hide Node.Valid, CString;
    StringNode(child);
    child.name, child.valuestring := child.valuestring, null;
    child.key, child.text := child.text, [];
    NamedNode(child);
  }

  lemma StringNode(item: Node)
    requires item.Valid() && item.kids == [] && item.valuestring != null && item.name == null
    ensures item.child == null && item.Repr == {item, item.valuestring} && CString(item.valuestring, item.text)
  {
    hide CString;
    assert Union([]) == {};
  }

  lemma NamedNode(item: Node)
    requires item.kids == [] && item.child == null && item.valuestring == null && item.name != null
    requires item.Repr == {item, item.name} && CString(item.name, item.key)
    ensures item.Valid()
  {
    hide CString;
    assert Union([]) == {};
  }

  /** One more member: it is linked, then its name and its value are parsed (cJSON.c:414-422, :426-434). */
  method ParseMember(h: Memory, item: Node, last: Node?, t: seq<byte>, q: nat)
    returns (ok: bool, child: Node?, end: nat)
    requires q <= |t| && item.Valid() && h !in item.Repr && last == LastOf(item) && !OnePair(t, q).Ragged?
    modifies h, item`child, item`kids, item`Repr, IfAny(last)`next
    ensures Filled(h, item) && (h.failed ==> !ok || old(h.failed))
    ensures ok ==>
              && child != null && fresh(child) && item.kids == old(item.kids) + [child]
              && OnePair(t, q).Ok? && end == OnePair(t, q).end && h.failed == old(h.failed)
              && item.Values() == old(item.Values()) + [OnePair(t, q).value.value]
              && item.Keys() == old(item.Keys()) + [OnePair(t, q).value.key]
    ensures !ok ==> OnePair(t, q) == Fail(end) || h.failed
    decreases |t| - q, 3
  {
    hide Node.Valid, Node.Tree, ParseValue, ParseString, Node.Values, Node.ValuesTo, Node.Keys, Node.KeysTo, Skip, Account;
    ghost var ks := item.kids;
    child, ok, end := AddNamed(h, item, last, t, q);
    if !ok { return; }
    var c := SkipBlanks(t, end);
    if At(t, c) != COLON {
      return false, child, c;
    }
    var a := SkipBlanks(t, c + 1);
    ghost var repr, live := item.Repr, h.live;
    ok, end := FillChild(h, item, child, ks, t, a);
    AccountOn(old(item.Repr), old(h.live), repr, live, item.Repr, h.live);
  }

  /** A new child with its name. */
  method AddNamed(h: Memory, item: Node, last: Node?, t: seq<byte>, q: nat) returns (child: Node?, ok: bool, end: nat)
    requires q <= |t| && item.Valid() && h !in item.Repr && last == LastOf(item) && !ParseString(t, q).Ragged?
    modifies h, item`child, item`kids, item`Repr, IfAny(last)`next
    ensures Filled(h, item)
    ensures ok ==>
              && child != null && fresh(child) && item.kids == old(item.kids) + [child] && Ready(h, child)
              && ParseString(t, q).Ok? && end == ParseString(t, q).end && h.failed == old(h.failed)
              && item.ValuesTo(|old(item.kids)|) == old(item.Values())
              && item.Keys() == old(item.Keys()) + [ParseString(t, q).value]
    ensures !ok ==> ParseString(t, q) == Fail(end) || h.failed
    decreases |t| - q, 2
  {
    hide Node.Valid, Node.Tree, ParseString, Node.Values, Node.ValuesTo, Node.Keys, Node.KeysTo, Account;
    ghost var ks := item.kids;
    child := AddChild(h, item, last);
    if child == null {
      return child, false, q;
    }
    KeysButLast(item);
    ghost var repr, live := item.Repr, h.live;
    ok, end := NameChild(h, item, child, ks, t, q);
    AccountOn(old(item.Repr), old(h.live), repr, live, item.Repr, h.live);
  }

  lemma KeysButLast(parent: Node)
    requires parent.kids != []
    ensures parent.KeysTo(|parent.kids| - 1) == parent.Keys()[..|parent.kids| - 1]
  {
  }

  /** The members after the first, each after a comma (cJSON.c:424-439). */
  method ParseMoreMembers(h: Memory, item: Node, last: Node?, t: seq<byte>, from: nat) returns (ok: bool, end: nat)
    requires from <= |t| && item.Valid() && h !in item.Repr && last == LastOf(item)
    requires !AfterPairs(t, item.Keys(), item.Values(), from).Ragged?
    modifies h, item`child, item`kids, item`Repr, IfAny(last)`next
    ensures Filled(h, item)
    ensures Answers(old(AfterPairs(t, item.Keys(), item.Values(), from)), ok, MembersOf(item.Keys(), item.Values()), end,
                    old(h.failed), h.failed)
    decreases |t| - from, 4
  {
    hide Node.Valid, Node.Tree, ParseMembers, Skip, MemberPrefix, Node.Values, Node.Keys, OnePair, Account;
    ghost var r := AfterPairs(t, item.Keys(), item.Values(), from);
    var value, child := from, last;
    AccountSame(item.Repr, h.live);
    while At(t, value) == COMMA
      invariant from <= value <= |t| && child == LastOf(item)
      invariant Filled(h, item) && h.failed == old(h.failed)
      invariant child == last || fresh(child)
      invariant r == AfterPairs(t, item.Keys(), item.Values(), value)
      decreases |t| - value
    {
      var q := SkipBlanks(t, value + 1);
      PairsStep(t, item.Keys(), item.Values(), q);
      ghost var repr, live := item.Repr, h.live;
      ok, child, end := ParseMember(h, item, child, t, q);
      AccountOn(old(item.Repr), old(h.live), repr, live, item.Repr, h.live);
      if !ok { return; }
      value := SkipBlanks(t, end);
    }
    ok, end := At(t, value) == RBRACE, if At(t, value) == RBRACE then value + 1 else value;
  }

  /** All members, from the first one on (cJSON.c:415-438). */
  method ParseAllMembers(h: Memory, item: Node, t: seq<byte>, p: nat) returns (ok: bool, end: nat)
    requires p <= |t| && item.Valid() && item.kids == [] && h !in item.Repr && !ParseMembers(t, p).Ragged?
    modifies h, item`child, item`kids, item`Repr
    ensures Filled(h, item)
    ensures Answers(ParseMembers(t, p), ok, MembersOf(item.Keys(), item.Values()), end, old(h.failed), h.failed)
    decreases |t| - p, 5
  {
    hide Node.Valid, Node.Tree, ParseMembers, Skip, MemberPrefix, Node.Values, Node.Keys, OnePair, Account;
    NoValues(item);
    AccountSame(item.Repr, h.live);
    NoPairsAttached(ParseMembers(t, p));
    PairsStep(t, [], [], p);
    var child;
    ok, child, end := ParseMember(h, item, null, t, p);
    if !ok { return; }
    var value := SkipBlanks(t, end);
    ghost var repr, live := item.Repr, h.live;
    ok, end := ParseMoreMembers(h, item, child, t, value);
    AccountOn(old(item.Repr), old(h.live), repr, live, item.Repr, h.live);
  }

  /** parse_object (cJSON.c:406-439) */
  method ParseObject(h: Memory, item: Node, t: seq<byte>, i: nat) returns (ok: bool, end: nat)
    requires i < |t| && Ready(h, item) && At(t, i) == LBRACE && !ParseValue(t, i).Ragged?
    modifies h, item`kind, item`child, item`kids, item`Repr
    ensures Filled(h, item)
    ensures Answers(ParseValue(t, i), ok, item.Tree(), end, old(h.failed), h.failed)
    decreases |t| - i, 0
  {
    hide Node.Valid, Node.Tree, ParseValue, ParseMembers, Skip, MemberPrefix, Node.Values, Node.Keys, Account;
    ObjectValue(t, i);
    item.kind := KIND_OBJECT;
    PlainNode(item);
    NoValues(item);
    AccountSame(item.Repr, h.live);
    var p := SkipBlanks(t, i + 1);
    if At(t, p) == RBRACE {
      NoneIsNone();
      return true, p + 1;
    }
    ok, end := ParseAllMembers(h, item, t, p);
    PlainNode(item);
  }

  // ---------- Deleting ----------

  /** The nodes of the list are valid and their parts of memory are separate; next leads along it. */
  ghost predicate Deletable(ks: seq<Node>)
    reads ks, Union(ks)
  {
    && (forall k <- ks :: k.Repr <= Union(ks))
    && (forall k <- ks :: k.Valid())
    && Separate(ks) && NextLinks(ks)
  }

  lemma UnionPrefix(ks: seq<Node>, i: nat)
    requires i < |ks| && Separate(ks)
    ensures Union(ks[..i + 1]) == Union(ks[..i]) + ks[i].Repr
    ensures Union(ks[..i]) !! ks[i].Repr && ks[i].Repr <= Union(ks)
  {
    assert ks[..i + 1] == ks[..i] + [ks[i]];
    UnionAppend(ks[..i], ks[i]);
    forall x | x in Union(ks[..i])
      ensures x !in ks[i].Repr
    {
      var k :| k in ks[..i] && x in k.Repr;
      var j :| 0 <= j < i && ks[j] == k;
    }
    assert ks[i] in ks;
  }

  /** cJSON_Delete: frees the nodes of a list and all they own, each once. */
  method Delete(h: Memory, first: Node?, ghost ks: seq<Node>)
    requires first == (if ks == [] then null else ks[0]) && Deletable(ks)
    requires Union(ks) <= h.live && h !in Union(ks)
    modifies h
    ensures h.live == old(h.live) - Union(ks) && h.failed == old(h.failed)
    decreases Union(ks), 1
  {
    hide Node.Valid, Union, Separate;
    var c := first;
    ghost var i: nat := 0;
    NoneInUnion(ks);
    while c != null
      invariant i <= |ks| && c == (if i < |ks| then ks[i] else null) && Deletable(ks)
      invariant h.live == old(h.live) - Union(ks[..i]) && h.failed == old(h.failed)
      decreases |ks| - i
    {
      var next := c.next;
      assert NextLinks(ks) && ks[i].next == if i + 1 < |ks| then ks[i + 1] else null;
      UnionPrefix(ks, i);
      assert c.Repr <= h.live;
      assert c.Repr == Union(ks) || c.Repr < Union(ks);
      DeleteOne(h, c);
      c := next;
      i := i + 1;
    }
    assert ks[..i] == ks;
  }

  lemma NoneInUnion(ks: seq<Node>)
    ensures Union(ks[..0]) == {}
  {
  }

  /** One turn of the loop of cJSON_Delete (cJSON.c:86-90). */
  method DeleteOne(h: Memory, c: Node)
    requires c.Valid() && c.Repr <= h.live && h !in c.Repr
    modifies h
    ensures h.live == old(h.live) - c.Repr && h.failed == old(h.failed)
    decreases c.Repr, 0
  {
    hide Node.Valid, Union, Separate, Links, Node.StringsOk;
    Unfold(c);
    KidsDeletable(c);
    if c.child != null {
      Delete(h, c.child, c.kids);
    }
    if c.valuestring != null {
      h.Free(c.valuestring);
    }
    if c.name != null {
      h.Free(c.name);
    }
    h.Free(c);
  }

  lemma KidsDeletable(c: Node)
    requires c.Valid()
    ensures Deletable(c.kids) && c.Own() !! Union(c.kids) && c.Repr == c.Own() + Union(c.kids)
    ensures c.child == if c.kids == [] then null else c.kids[0]
    ensures c.kids == [] ==> Union(c.kids) == {}
    ensures c.valuestring != null ==> c.valuestring != c.name
  {
  }

  // ---------- The whole text ----------

  /**
   cJSON_ParseWithOpts: gives back the value of the text, with exactly its nodes and strings allocated; if
   it fails, for whatever reason, everything that has been allocated is freed.
   */
  method ParseWithOpts(h: Memory, t: seq<byte>, whole: bool) returns (root: Node?, end: nat)
    requires !ParseValue(t, Skip(t, 0)).Ragged?
    modifies h
    ensures root == null ==> h.live == old(h.live) && (h.failed || Parse(t, whole) == Fail(end))
    ensures root != null ==>
              && root.Valid() && fresh(root.Repr) && h.live == old(h.live) + root.Repr
              && root.next == null && root.prev == null
              && Parse(t, whole) == Ok(root.Tree(), end) && !h.failed
  {
    hide Node.Valid, Node.Tree, ParseValue, Skip;
    h.failed := false;
    var c := h.NewItem();
    if c == null { return null, 0; }
    var start := SkipBlanks(t, 0);
    var ok;
    ok, end := ParseNode(h, c, t, start);
    if ok && whole {
      end := SkipBlanks(t, end);
      ok := At(t, end) == 0;
    }
    if ok {
      return c, end;
    }
    AloneDeletable(c);
    Delete(h, c, [c]);
    root := null;
  }

  /** What parsing has allocated, deleting the root frees: whatever the text and whichever allocation fails. */
  method ParseAndDelete(h: Memory, t: seq<byte>, whole: bool) returns (ok: bool)
    requires !ParseValue(t, Skip(t, 0)).Ragged?
    modifies h
    ensures h.live == old(h.live)
    ensures ok <==> Parse(t, whole).Ok? && !h.failed
  {
    hide Node.Valid, Node.Tree, Parse, Skip, ParseValue;
    var root, end := ParseWithOpts(h, t, whole);
    ok := root != null;
    if ok {
      AloneDeletable(root);
      Delete(h, root, [root]);
    }
  }

  lemma AloneDeletable(c: Node)
    requires c.Valid() && c.next == null
    ensures Deletable([c]) && Union([c]) == c.Repr
  {
    hide Node.Valid;
  }
}
