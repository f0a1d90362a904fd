/**
 The printers: every array and object prints its children first, adds up how much room they need, and
 then puts the text together in one buffer of that size, which no copy overruns.  Any allocation may
 fail; then nothing is left allocated, and otherwise the text alone.
 */
module JsonPrint {
  import opened Bytes
  import opened JsonText
  import opened JsonStrings
  import opened JsonNodes

  // ---------- C strings ----------

  lemma ZeroEnds(a: array<byte>, s: seq<byte>, n: nat)
    requires CString(a, s) && n <= |s|
    ensures n < a.Length && (a[n] == 0 <==> n == |s|) && (n < |s| ==> a[n] == s[n])
  {
    if n < |s| {
      assert a[..|s|][n] == s[n];
    }
  }

  method StrLen(a: array<byte>, ghost s: seq<byte>) returns (n: nat)
    requires CString(a, s)
    ensures n == |s|
  {
    n := 0;
    ZeroEnds(a, s, n);
    while a[n] != 0
      invariant n <= |s| < a.Length
      decreases |s| - n
    {
      ZeroEnds(a, s, n);
      n := n + 1;
    }
    ZeroEnds(a, s, n);
  }

  /** Copies a C string to a place in a buffer that has room for it and its zero. */
  method StrCpy(dst: array<byte>, at: nat, src: array<byte>, ghost s: seq<byte>)
    requires CString(src, s) && dst != src && at + |s| < dst.Length
    modifies dst
    ensures dst[..at + |s|] == old(dst[..at]) + s && dst[at + |s|] == 0
  {
    var n: nat := 0;
    ZeroEnds(src, s, n);
    while src[n] != 0
      invariant n <= |s| < src.Length && CString(src, s) && dst[..at + n] == old(dst[..at]) + s[..n]
      decreases |s| - n
    {
      ZeroEnds(src, s, n);
      dst[at + n] := src[n];
      n := n + 1;
      assert s[..n] == s[..n - 1] + [s[n - 1]];
    }
    ZeroEnds(src, s, n);
    assert s[..n] == s;
    dst[at + n] := 0;
  }

  /** What a printer gives back: a new text and nothing else allocated, or nothing for lack of memory. */
  twostate predicate Given(h: Memory, new out: array?<byte>)
    reads h
  {
    if out == null then h.live == old(h.live) && h.failed
    else fresh(out) && h.live == old(h.live) + {out} && h.failed == old(h.failed)
  }

  /** A copy of a C string in memory of its own (cJSON_strdup). */
  method StrDup(h: Memory, s: seq<byte>) returns (out: array?<byte>)
    requires NulFree(s)
    modifies h
    ensures Given(h, out) && (out != null ==> CString(out, s))
  {
    out := h.NewBytes(|s| + 1);
    if out != null {
      forall k | 0 <= k < out.Length {
        out[k] := if k < |s| then s[k] else 0;
      }
    }
  }

  lemma {:induction false} DigitsLength(n: nat, k: nat)
    requires n < Power(k) && k > 0
    ensures |Digits(n)| <= k
    decreases k
  {
    if n >= 10 {
      DigitsLength(n / 10, k - 1);
    }
  }

  function Power(k: nat): nat {
    if k == 0 then 1 else 10 * Power(k - 1)
  }

  /** An int takes no more than 11 characters, so 21 are enough. */
  lemma IntLength(n: int)
    requires INT_MIN <= n <= INT_MAX
    ensures |PrintInt(n)| <= 11
  {
    assert Power(10) == 10000000000 by {
      assert Power(5) == 100000;
      assert Power(8) == 100000000;
    }
    DigitsLength(if n < 0 then -n else n, 10);
  }

  lemma {:induction false} DigitsNulFree(n: nat)
    ensures NulFree(Digits(n))
    decreases n
  {
    if n >= 10 {
      DigitsNulFree(n / 10);
    }
  }

  lemma IntNulFree(n: int)
    ensures NulFree(PrintInt(n))
  {
    DigitsNulFree(if n < 0 then -n else n);
  }

  /** The decimal text of an int in a buffer of 21 bytes (cJSON.c:122-126). */
  method PrintNumber(h: Memory, d: real) returns (out: array?<byte>)
    requires IsInt(d)
    modifies h
    ensures Given(h, out) && (out != null ==> CString(out, PrintInt(d.Floor)))
  {
    var text := PrintInt(d.Floor);
    IntLength(d.Floor);
    IntNulFree(d.Floor);
    out := h.NewBytes(21);
    if out != null {
      forall k | 0 <= k < out.Length {
        out[k] := if k < |text| then text[k] else 0;
      }
    }
  }

  // ---------- Pieces of a text ----------

  /** The texts that an array holds. */
  ghost function Pieces(es: seq<array?<byte>>): set<object> {
    set k | 0 <= k < |es| && es[k] != null :: es[k] as object
  }

  /** No text is held twice. */
  predicate Apart(es: seq<array?<byte>>) {
    forall j, k :: 0 <= j < k < |es| && es[j] != null ==> es[j] != es[k]
  }

  ghost function Bag(a: array?<byte>): set<object> {
    if a == null then {} else {a}
  }

  /** What is allocated besides what was is the texts that the two arrays hold, each of them once. */
  ghost predicate Collected(live0: set<object>, live1: set<object>, ns: seq<array?<byte>>, es: seq<array?<byte>>) {
    && Apart(ns) && Apart(es) && Pieces(ns) !! Pieces(es) && live0 !! Pieces(ns) && live0 !! Pieces(es)
    && live1 == live0 + Pieces(ns) + Pieces(es)
  }

  lemma NoPieces(es: seq<array?<byte>>)
    requires forall k :: 0 <= k < |es| ==> es[k] == null
    ensures Pieces(es) == {} && Apart(es)
  {
  }

  /** One more text, or none, goes to the place i. */
  lemma OnePiece(es: seq<array?<byte>>, i: nat, a: array?<byte>)
    requires i < |es| && es[i] == null && Apart(es) && (a != null ==> a !in Pieces(es))
    ensures Pieces(es[i := a]) == Pieces(es) + Bag(a) && Apart(es[i := a])
  {
    var more := es[i := a];
    forall x | x in Pieces(es)
      ensures x in Pieces(more)
    {
      var k :| 0 <= k < |es| && es[k] != null && es[k] == x;
      assert more[k] == x;
    }
    if a != null {
      assert more[i] == a;
    }
    forall j, k | 0 <= j < k < |more| && more[j] != null
      ensures more[j] != more[k]
    {
      assert j != i ==> more[j] in Pieces(es);
      assert k != i && more[k] != null ==> more[k] in Pieces(es);
    }
  }

  lemma CollectedNone(live: set<object>, ns: seq<array?<byte>>, es: seq<array?<byte>>)
    requires forall k :: 0 <= k < |ns| ==> ns[k] == null
    requires forall k :: 0 <= k < |es| ==> es[k] == null
    ensures Collected(live, live, ns, es)
  {
    NoPieces(ns);
    NoPieces(es);
  }

  lemma CollectedName(live0: set<object>, live1: set<object>, ns: seq<array?<byte>>, es: seq<array?<byte>>, i: nat,
                      a: array?<byte>)
    requires Collected(live0, live1, ns, es) && i < |ns| && ns[i] == null && Bag(a) !! live1
    ensures Collected(live0, live1 + Bag(a), ns[i := a], es)
  {
    hide Apart, Pieces;
    assert a != null ==> a in Bag(a);
    OnePiece(ns, i, a);
  }

  lemma CollectedEntry(live0: set<object>, live1: set<object>, ns: seq<array?<byte>>, es: seq<array?<byte>>, i: nat,
                       a: array?<byte>)
    requires Collected(live0, live1, ns, es) && i < |es| && es[i] == null && Bag(a) !! live1
    ensures Collected(live0, live1 + Bag(a), ns, es[i := a])
  {
    hide Apart, Pieces;
    assert a != null ==> a in Bag(a);
    OnePiece(es, i, a);
  }

  /** Something else that is allocated. */
  lemma CollectedBesides(live0: set<object>, live1: set<object>, ns: seq<array?<byte>>, es: seq<array?<byte>>,
                         more: set<object>)
    requires Collected(live0, live1, ns, es) && more !! live1
    ensures Collected(live0 + more, live1 + more, ns, es)
  {
    hide Apart, Pieces;
  }

  lemma PiecesPrefix(es: seq<array?<byte>>, i: nat)
    requires i < |es| && Apart(es)
    ensures Pieces(es[..i + 1]) == Pieces(es[..i]) + Bag(es[i])
    ensures es[i] != null ==> es[i] !in Pieces(es[..i]) && es[i] in Pieces(es)
  {
    var es', some := es[..i + 1], es[..i];
    assert es' == some + [es[i]];
    forall x | x in Pieces(some)
      ensures x in Pieces(es')
    {
      var k :| 0 <= k < |some| && some[k] != null && some[k] == x;
      assert es'[k] == x;
    }
    if es[i] != null {
      assert es'[i] == es[i];
    }
  }

  /** Frees the text at i, if there is one; those before it and some others are gone already. */
  method FreePiece(h: Memory, es: array<array?<byte>>, i: nat, ghost live: set<object>, ghost gone: set<object>)
    requires i < es.Length && Apart(es[..]) && Pieces(es[..]) <= live && gone !! Pieces(es[..])
    requires h.live == live - gone - Pieces(es[..i])
    modifies h
    ensures h.live == live - gone - Pieces(es[..i + 1]) && h.failed == old(h.failed)
  {
    PiecesPrefix(es[..], i);
    assert es[..][..i] == es[..i] && es[..][..i + 1] == es[..i + 1];
    if es[i] != null {
      h.Free(es[i]);
    }
  }

  /** Frees what an array holds, and the array itself (cJSON.c:386-387). */
  method FreeItems(h: Memory, es: array<array?<byte>>, ghost live: set<object>)
    requires Collected(live + {es}, h.live, [], es[..]) && es !in live
    modifies h
    ensures h.live == live && h.failed == old(h.failed)
  {
    hide Apart, Pieces;
    ghost var all := h.live;
    NoPieces([]);
    NoPieces(es[..0]);
    for i := 0 to es.Length
      invariant h.live == all - {} - Pieces(es[..i]) && h.failed == old(h.failed)
    {
      FreePiece(h, es, i, all, {});
    }
    assert es[..es.Length] == es[..];
    h.Free(es);
  }

  // ---------- Arrays ----------

  // ---------- Arrays ----------

  /** The texts of the items. */
  function Texts(items: Items, depth: nat, fmt: bool): seq<seq<byte>>
    requires ItemsOk(items)
  {
    if items.NoItems? then [] else [PrintValue(items.value, depth, fmt)] + Texts(items.rest, depth, fmt)
  }

  /** Texts with a gap between them. */
  function Joined(ts: seq<seq<byte>>, gap: seq<byte>): seq<byte> {
    if ts == [] then [] else ts[0] + (if |ts| == 1 then [] else gap) + Joined(ts[1..], gap)
  }

  /** Room for texts with `extra` more bytes for each. */
  function Room(ts: seq<seq<byte>>, extra: nat): nat {
    if ts == [] then 0 else |ts[0]| + extra + Room(ts[1..], extra)
  }

  lemma {:induction false} ItemsAreJoined(items: Items, depth: nat, fmt: bool)
    requires ItemsOk(items)
    ensures PrintItems(items, depth, fmt) == Joined(Texts(items, depth, fmt), [COMMA] + If(fmt, [SPACE]))
    decreases items
  {
    hide PrintValue, If;
    if items.Item? {
      ItemsAreJoined(items.rest, depth, fmt);
      var ts := Texts(items, depth, fmt);
      assert ts[1..] == Texts(items.rest, depth, fmt);
      assert |ts| == 1 <==> items.rest.NoItems? by { assert items.rest.NoItems? <==> Texts(items.rest, depth, fmt) == []; }
    }
  }

  /** The first n entries are the texts. */
  ghost predicate Hold(es: seq<array?<byte>>, n: nat, ts: seq<seq<byte>>)
    requires n <= |es| && n <= |ts|
    reads set j | 0 <= j < |es| && es[j] != null :: es[j]
  {
    forall k :: 0 <= k < n ==> es[k] != null && CString(es[k], ts[k])
  }

  lemma TextsStep(items: Items, depth: nat, fmt: bool)
    requires ItemsOk(items)
    ensures items.NoItems? <==> Texts(items, depth, fmt) == []
    ensures items.Item? ==>
              var ts := Texts(items, depth, fmt);
              ts[0] == PrintValue(items.value, depth, fmt) && ts[1..] == Texts(items.rest, depth, fmt)
  {
  }

  method CountItems(items: Items, ghost depth: nat, ghost fmt: bool) returns (n: nat)
    requires ItemsOk(items)
    ensures n == |Texts(items, depth, fmt)|
  {
    hide PrintValue;
    var child := items;
    n := 0;
    while child.Item?
      invariant ItemsOk(child) && n + |Texts(child, depth, fmt)| == |Texts(items, depth, fmt)|
      decreases child
    {
      TextsStep(child, depth, fmt);
      n := n + 1;
      child := child.rest;
    }
  }

  /** The text of a value, printed by its kind (cJSON.c:302-317). */
  method Print(h: Memory, v: Value, depth: nat, fmt: bool) returns (out: array?<byte>)
    requires ValueOk(v)
    modifies h
    ensures Given(h, out) && (out != null ==> CString(out, PrintValue(v, depth, fmt)))
    decreases v, 1
  {
    match v
    case Null => out := StrDup(h, NULL_TEXT);
    case False => out := StrDup(h, FALSE_TEXT);
    case True => out := StrDup(h, TRUE_TEXT);
    case Number(d) => out := PrintNumber(h, d);
    case Str(s) => out := PrintText(h, s);
    case Arr(items) => out := PrintArray(h, items, depth, fmt);
    case Obj(members) => out := PrintObject(h, members, depth, fmt);
  }

  /** The text of a string (cJSON.c:250). */
  method PrintText(h: Memory, s: seq<byte>) returns (out: array?<byte>)
    requires NulFree(s)
    modifies h
    ensures Given(h, out) && (out != null ==> CString(out, PrintString(s)))
  {
    hide Escape;
    EscapeNulFree(s);
    var granted := h.Grant();
    if !granted { return null; }
    var text := PrintStringPtr(s);
    h.live := h.live + {text};
    assert text[..|PrintString(s)|] == PrintString(s);
    assert text[|PrintString(s)|] == text[..][|PrintString(s)|];
    out := text;
  }

  lemma {:induction false} EscapeNulFree(s: seq<byte>)
    requires NulFree(s)
    ensures NulFree(Escape(s))
    decreases |s|
  {
    if s != [] {
      EscapeNulFree(s[1..]);
    }
  }

  /** print_array (cJSON.c:348-403) */
  method PrintArray(h: Memory, items: Items, depth: nat, fmt: bool) returns (out: array?<byte>)
    requires ItemsOk(items)
    modifies h
    ensures Given(h, out) && (out != null ==> CString(out, PrintValue(Arr(items), depth, fmt)))
    decreases items, 1
  {
    hide PrintValue, PrintItems, Texts, Joined, Room, CString, Collected;
    ghost var ts := Texts(items, depth + 1, fmt);
    var numentries := CountItems(items, depth + 1, fmt);
    TextsStep(items, depth + 1, fmt);
    if numentries == 0 {
      out := StrDup(h, [LBRACKET, RBRACKET]);
      EmptyArray(depth, fmt);
      return;
    }
    var entries := h.NewPointers(numentries);
    if entries == null { return null; }
    var len, fail := CollectItems(h, items, depth, fmt, entries);
    out := null;
    if !fail {
      out := h.NewBytes(len);
    }
    if out == null {
      FreeItems(h, entries, old(h.live));
      return;
    }
    CollectedBesides(old(h.live) + {entries}, h.live - {out}, [], entries[..], {out});
    ComposeArray(h, out, entries, fmt, ts, old(h.live) + {entries} + {out});
    h.Free(entries);
    ArrayText(items, depth, fmt);
  }

  lemma EmptyArray(depth: nat, fmt: bool)
    ensures PrintValue(Arr(NoItems), depth, fmt) == [LBRACKET, RBRACKET]
  {
  }

  lemma ArrayText(items: Items, depth: nat, fmt: bool)
    requires ItemsOk(items)
    ensures PrintValue(Arr(items), depth, fmt) ==
            [LBRACKET] + Joined(Texts(items, depth + 1, fmt), [COMMA] + If(fmt, [SPACE])) + [RBRACKET]
  {
    hide PrintItems, Texts, Joined;
    ItemsAreJoined(items, depth + 1, fmt);
  }

  /** Prints all items, unless one fails, and adds up their lengths (cJSON.c:368-376). */
  method CollectItems(h: Memory, items: Items, depth: nat, fmt: bool, entries: array<array?<byte>>)
    returns (len: nat, fail: bool)
    requires ItemsOk(items) && entries.Length == |Texts(items, depth + 1, fmt)|
    requires forall k :: 0 <= k < entries.Length ==> entries[k] == null
    modifies h, entries
    ensures Collected(old(h.live), h.live, [], entries[..])
    ensures fail ==> h.failed
    ensures !fail ==>
              && h.failed == old(h.failed) && Hold(entries[..], entries.Length, Texts(items, depth + 1, fmt))
              && len == 5 + Room(Texts(items, depth + 1, fmt), 2 + if fmt then 1 else 0)
    decreases items, 0
  {
    hide PrintValue, Texts, Room, CString, Collected;
    ghost var ts := Texts(items, depth + 1, fmt);
    var extra := 2 + if fmt then 1 else 0;
    len, fail := 5, false;
    var child, i := items, 0;
    assert ts[0..] == ts;
    CollectedNone(h.live, [], entries[..]);
    while child.Item? && !fail
      invariant ItemsOk(child) && 0 <= i <= entries.Length && Texts(child, depth + 1, fmt) == ts[i..]
      invariant child == items || child < items
      invariant forall k :: i <= k < entries.Length ==> entries[k] == null
      invariant Collected(old(h.live), h.live, [], entries[..])
      invariant if fail then h.failed else h.failed == old(h.failed)
      invariant !fail ==> Hold(entries[..], i, ts) && len + Room(ts[i..], extra) == 5 + Room(ts, extra)
      decreases child
    {
      TextsStep(child, depth + 1, fmt);
      RoomStep(ts[i..], extra);
      RestOf(ts, i);
      ghost var live, es := h.live, entries[..];
      var ret := Print(h, child.value, depth + 1, fmt);
      CollectedEntry(old(h.live), live, [], es, i, ret);
      assert h.live == live + Bag(ret);
      entries[i] := ret;
      assert entries[..] == es[i := ret];
      i := i + 1;
      if ret != null {
        var n := StrLen(ret, ts[i - 1]);
        len := len + n + extra;
      } else {
        fail := true;
      }
      child := child.rest;
    }
    TextsStep(child, depth + 1, fmt);
    RoomStep(ts[i..], extra);
  }

  lemma RoomStep(ts: seq<seq<byte>>, extra: nat)
    ensures ts == [] ==> Room(ts, extra) == 0
    ensures ts != [] ==> Room(ts, extra) == |ts[0]| + extra + Room(ts[1..], extra)
  {
  }

  lemma JoinStep(ts: seq<seq<byte>>, gap: seq<byte>)
    ensures ts == [] ==> Joined(ts, gap) == []
    ensures ts != [] ==> Joined(ts, gap) == ts[0] + (if |ts| == 1 then [] else gap) + Joined(ts[1..], gap)
  {
  }

  /** The start of a C string: what is in the array up to n, without a zero. */
  predicate Begun(out: array<byte>, n: nat, s: seq<byte>)
    reads out
  {
    n == |s| && n <= out.Length && out[..n] == s && NulFree(s)
  }

  /** Appends one byte. */
  method Put(out: array<byte>, n: nat, c: byte, ghost s: seq<byte>)
    requires Begun(out, n, s) && n < out.Length && c != 0
    modifies out
    ensures Begun(out, n + 1, s + [c])
  {
    out[n] := c;
    assert out[..n + 1] == s + [c];
  }

  /** Appends a C string to what is in the buffer. */
  method PutAll(out: array<byte>, n: nat, src: array<byte>, ghost s: seq<byte>, ghost f: seq<byte>) returns (m: nat)
    requires Begun(out, n, s) && CString(src, f) && src != out && n + |f| < out.Length
    modifies out
    ensures m == n + |f| && Begun(out, m, s + f)
  {
    StrCpy(out, n, src, f);
    var k := StrLen(src, f);
    m := n + k;
  }

  method PutTabs(out: array<byte>, n: nat, k: nat, ghost s: seq<byte>) returns (m: nat)
    requires Begun(out, n, s) && n + k <= out.Length
    modifies out
    ensures m == n + k && Begun(out, m, s + Tabs(k))
  {
    m := n;
    assert s + Tabs(0) == s;
    for j := 0 to k
      invariant m == n + j && Begun(out, m, s + Tabs(j))
    {
      Put(out, m, TAB, s + Tabs(j));
      assert s + Tabs(j + 1) == s + Tabs(j) + [TAB];
      m := m + 1;
    }
  }

  /** Appends one byte if it is wanted. */
  method PutIf(out: array<byte>, n: nat, cond: bool, c: byte, ghost s: seq<byte>) returns (m: nat)
    requires Begun(out, n, s) && n < out.Length && c != 0
    modifies out
    ensures m == n + (if cond then 1 else 0) && Begun(out, m, s + If(cond, [c]))
  {
    m := n;
    if cond {
      Put(out, m, c, s);
      m := m + 1;
    } else {
      assert s + [] == s;
    }
  }

  method PutTabsIf(out: array<byte>, n: nat, cond: bool, k: nat, ghost s: seq<byte>) returns (m: nat)
    requires Begun(out, n, s) && n + (if cond then k else 0) <= out.Length
    modifies out
    ensures m == n + (if cond then k else 0) && Begun(out, m, s + If(cond, Tabs(k)))
  {
    m := n;
    if cond {
      m := PutTabs(out, m, k, s);
    } else {
      assert s + [] == s;
    }
  }

  /** Puts the array together and frees its parts (cJSON.c:391-401). */
  method ComposeArray(h: Memory, out: array<byte>, entries: array<array?<byte>>, fmt: bool, ghost ts: seq<seq<byte>>,
                      ghost live: set<object>)
    requires |ts| == entries.Length && Hold(entries[..], entries.Length, ts) && out !in entries[..]
    requires out.Length == 5 + Room(ts, 2 + if fmt then 1 else 0)
    requires Collected(live, h.live, [], entries[..])
    modifies h, out
    ensures CString(out, [LBRACKET] + Joined(ts, [COMMA] + If(fmt, [SPACE])) + [RBRACKET])
    ensures h.live == live && h.failed == old(h.failed)
  {
    hide CString, Begun, Joined, Room, If, Pieces, Apart;
    ghost var gap := [COMMA] + If(fmt, [SPACE]);
    ghost var extra := 2 + if fmt then 1 else 0;
    ghost var all := [LBRACKET] + Joined(ts, gap);
    ghost var live0 := h.live;
    BeginString(out);
    Put(out, 0, LBRACKET, []);
    var ptr: nat, i: nat := 1, 0;
    ghost var s: seq<byte> := [] + [LBRACKET];
    assert s == [LBRACKET] && ts[0..] == ts;
    NoPieces([]);
    NoPieces(entries[..0]);
    while i < entries.Length
      invariant i <= entries.Length && Begun(out, ptr, s) && all == s + Joined(ts[i..], gap)
      invariant ptr + Room(ts[i..], extra) + 4 <= out.Length
      invariant Hold(entries[..], entries.Length, ts)
      invariant h.live == live0 - {} - Pieces(entries[..i]) && h.failed == old(h.failed)
    {
      ghost var rest := ts[i..];
      RestOf(ts, i);
      JoinStep(rest, gap);
      RoomStep(rest, extra);
      assert entries[..][i] == entries[i];
      ghost var part := ts[i] + if i == |ts| - 1 then [] else gap;
      assert s + Joined(rest, gap) == s + part + Joined(ts[i + 1..], gap);
      ptr := ComposeItem(out, ptr, entries[i], fmt, i == entries.Length - 1, s, ts[i]);
      FreePiece(h, entries, i, live0, {});
      s := s + part;
      i := i + 1;
    }
    assert entries[..i] == entries[..];
    JoinStep(ts[i..], gap);
    assert s == all;
    Put(out, ptr, RBRACKET, s);
    PutEnd(out, ptr + 1, s + [RBRACKET]);
  }

  lemma RestOf(ts: seq<seq<byte>>, i: nat)
    requires i < |ts|
    ensures ts[i..][0] == ts[i] && ts[i..][1..] == ts[i + 1..]
  {
  }

  /** Puts one item into the text (cJSON.c:396-397). */
  method ComposeItem(out: array<byte>, n: nat, entry: array<byte>, fmt: bool, last: bool, ghost s: seq<byte>, ghost f: seq<byte>)
    returns (ptr: nat)
    requires Begun(out, n, s) && CString(entry, f) && entry != out
    requires n + |f| + 2 + (if fmt then 1 else 0) < out.Length
    modifies out
    ensures Begun(out, ptr, s + (f + if last then [] else [COMMA] + If(fmt, [SPACE])))
    ensures ptr <= n + |f| + 1 + if fmt then 1 else 0
  {
    hide Begun, CString, If;
    ptr := PutAll(out, n, entry, s, f);
    if !last {
      Put(out, ptr, COMMA, s + f);
      ptr := PutIf(out, ptr + 1, fmt, SPACE, s + f + [COMMA]);
      assert s + f + [COMMA] + If(fmt, [SPACE]) == s + (f + ([COMMA] + If(fmt, [SPACE])));
    } else {
      assert s + f == s + (f + []);
    }
  }

  lemma BeginString(out: array<byte>)
    ensures Begun(out, 0, [])
  {
  }

  /** Ends the string in the buffer. */
  method PutEnd(out: array<byte>, n: nat, ghost s: seq<byte>)
    requires Begun(out, n, s) && n < out.Length
    modifies out
    ensures CString(out, s)
  {
    out[n] := 0;
  }

  // ---------- Objects ----------

  function NameTexts(members: Members): seq<seq<byte>>
  {
    if members.NoMembers? then [] else [PrintString(members.name)] + NameTexts(members.others)
  }

  function ValueTexts(members: Members, depth: nat, fmt: bool): (r: seq<seq<byte>>)
    requires MembersOk(members)
    ensures |r| == |NameTexts(members)|
  {
    if members.NoMembers? then [] else [PrintValue(members.value, depth, fmt)] + ValueTexts(members.others, depth, fmt)
  }

  /** A name, a colon and a value; a comma unless it is the last member. */
  function MemberText(n: seq<byte>, v: seq<byte>, depth: nat, fmt: bool, last: bool): seq<byte> {
    If(fmt, Tabs(depth)) + n + [COLON] + If(fmt, [TAB]) + v + (if last then [] else [COMMA]) + If(fmt, [NEWLINE])
  }

  function MemberTexts(ns: seq<seq<byte>>, vs: seq<seq<byte>>, depth: nat, fmt: bool): seq<byte>
    requires |ns| == |vs|
  {
    if ns == [] then []
    else MemberText(ns[0], vs[0], depth, fmt, |ns| == 1) + MemberTexts(ns[1..], vs[1..], depth, fmt)
  }

  function PairRoom(ns: seq<seq<byte>>, vs: seq<seq<byte>>, extra: nat): nat
    requires |ns| == |vs|
  {
    if ns == [] then 0 else |ns[0]| + |vs[0]| + extra + PairRoom(ns[1..], vs[1..], extra)
  }

  lemma MembersStep(members: Members, depth: nat, fmt: bool)
    requires MembersOk(members)
    ensures members.NoMembers? <==> NameTexts(members) == []
    ensures members.Member? ==>
              var ns, vs := NameTexts(members), ValueTexts(members, depth, fmt);
              && ns[0] == PrintString(members.name) && ns[1..] == NameTexts(members.others)
              && vs[0] == PrintValue(members.value, depth, fmt) && vs[1..] == ValueTexts(members.others, depth, fmt)
  {
    hide PrintValue, PrintString;
  }

  lemma {:induction false} MembersAreTexts(members: Members, depth: nat, fmt: bool)
    requires MembersOk(members)
    ensures PrintMembers(members, depth, fmt) ==
            MemberTexts(NameTexts(members), ValueTexts(members, depth, fmt), depth, fmt)
    decreases members
  {
    hide PrintValue, If, PrintString, Tabs, NameTexts, ValueTexts;
    MembersStep(members, depth, fmt);
    if members.Member? {
      MembersAreTexts(members.others, depth, fmt);
      MembersStep(members.others, depth, fmt);
      assert |NameTexts(members)| == 1 <==> NameTexts(members)[1..] == [];
    }
  }

  lemma PairStep(ns: seq<seq<byte>>, vs: seq<seq<byte>>, depth: nat, fmt: bool, extra: nat)
    requires |ns| == |vs|
    ensures ns == [] ==> MemberTexts(ns, vs, depth, fmt) == [] && PairRoom(ns, vs, extra) == 0
    ensures ns != [] ==>
              && MemberTexts(ns, vs, depth, fmt) ==
                 MemberText(ns[0], vs[0], depth, fmt, |ns| == 1) + MemberTexts(ns[1..], vs[1..], depth, fmt)
              && PairRoom(ns, vs, extra) == |ns[0]| + |vs[0]| + extra + PairRoom(ns[1..], vs[1..], extra)
  {
    hide MemberText;
  }

  method CountMembers(members: Members) returns (n: nat)
    ensures n == |NameTexts(members)|
  {
    hide PrintString;
    var child := members;
    n := 0;
    while child.Member?
      invariant n + |NameTexts(child)| == |NameTexts(members)|
      decreases child
    {
      n := n + 1;
      child := child.others;
    }
  }

  /** print_object (cJSON.c:442-507) */
  method PrintObject(h: Memory, members: Members, depth: nat, fmt: bool) returns (out: array?<byte>)
    requires MembersOk(members)
    modifies h
    ensures Given(h, out) && (out != null ==> CString(out, PrintValue(Obj(members), depth, fmt)))
    decreases members, 3
  {
    hide PrintValue, NameTexts, ValueTexts, CString, PairRoom, MemberTexts, Collected;
    var numentries := CountMembers(members);
    MembersStep(members, depth + 1, fmt);
    if numentries == 0 {
      out := PrintEmptyObject(h, depth, fmt);
      return;
    }
    ghost var ns, vs := NameTexts(members), ValueTexts(members, depth + 1, fmt);
    var entries := h.NewPointers(numentries);
    if entries == null { return null; }
    var names := h.NewPointers(numentries);
    if names == null {
      h.Free(entries);
      return null;
    }
    var len, fail := CollectMembers(h, members, depth + 1, fmt, names, entries);
    out := null;
    if !fail {
      out := h.NewBytes(len);
    }
    if out == null {
      FreeMembers(h, names, entries, old(h.live));
      return;
    }
    CollectedBesides(old(h.live) + {entries} + {names}, h.live - {out}, names[..], entries[..], {out});
    ComposeObject(h, out, names, entries, depth + 1, fmt, ns, vs, old(h.live) + {entries} + {names} + {out});
    h.Free(names);
    h.Free(entries);
    ObjectText(members, depth, fmt);
  }

  /** Frees what the two arrays hold, and the arrays themselves (cJSON.c:485-486). */
  method FreeMembers(h: Memory, names: array<array?<byte>>, entries: array<array?<byte>>, ghost live: set<object>)
    requires names != entries && names.Length == entries.Length && names !in live && entries !in live
    requires Collected(live + {entries} + {names}, h.live, names[..], entries[..])
    modifies h
    ensures h.live == live && h.failed == old(h.failed)
  {
    hide Apart, Pieces;
    ghost var all := h.live;
    NoPieces(names[..0]);
    NoPieces(entries[..0]);
    for i := 0 to names.Length
      invariant h.live == all - Pieces(names[..i]) - Pieces(entries[..i]) && h.failed == old(h.failed)
    {
      FreePair(h, names, entries, i, all);
    }
    assert names[..names.Length] == names[..] && entries[..names.Length] == entries[..];
    h.Free(names);
    h.Free(entries);
  }

  /** Frees a name and a value. */
  method FreePair(h: Memory, names: array<array?<byte>>, entries: array<array?<byte>>, i: nat, ghost live: set<object>)
    requires Apart(names[..]) && Apart(entries[..]) && Pieces(names[..]) !! Pieces(entries[..])
    requires i < names.Length == entries.Length && Pieces(names[..]) <= live && Pieces(entries[..]) <= live
    requires h.live == live - Pieces(names[..i]) - Pieces(entries[..i])
    modifies h
    ensures h.live == live - Pieces(names[..i + 1]) - Pieces(entries[..i + 1]) && h.failed == old(h.failed)
  {
    hide Apart, Pieces;
    PiecesInside(names[..], i);
    PiecesInside(names[..], i + 1);
    PiecesInside(entries[..], i);
    assert names[..][..i] == names[..i] && names[..][..i + 1] == names[..i + 1] && entries[..][..i] == entries[..i];
    assert live - Pieces(entries[..i]) - Pieces(names[..i]) == h.live;
    FreePiece(h, names, i, live, Pieces(entries[..i]));
    assert live - Pieces(names[..i + 1]) - Pieces(entries[..i]) == h.live;
    FreePiece(h, entries, i, live, Pieces(names[..i + 1]));
  }

  lemma PiecesInside(es: seq<array?<byte>>, i: nat)
    requires i <= |es|
    ensures Pieces(es[..i]) <= Pieces(es)
  {
    forall x | x in Pieces(es[..i])
      ensures x in Pieces(es)
    {
      var k :| 0 <= k < i && es[..i][k] != null && es[..i][k] == x;
      assert es[k] == x;
    }
  }

  /** An empty object has a line of its own if formatted, with one tab less than other objects. */
  method PrintEmptyObject(h: Memory, depth: nat, fmt: bool) returns (out: array?<byte>)
    modifies h
    ensures Given(h, out)
    ensures out != null ==>
              CString(out, PrintValue(Obj(NoMembers), depth, fmt)) && out.Length == if fmt then depth + 4 else 3
  {
    hide CString, PrintValue;
    out := h.NewBytes(if fmt then depth + 4 else 3);
    if out != null {
      ComposeEmptyObject(out, depth, fmt);
    }
  }

  method ComposeEmptyObject(out: array<byte>, depth: nat, fmt: bool)
    requires out.Length == if fmt then depth + 4 else 3
    modifies out
    ensures CString(out, PrintValue(Obj(NoMembers), depth, fmt))
  {
    hide CString, Begun, Tabs;
    BeginString(out);
    Put(out, 0, LBRACE, []);
    var ptr := 1;
    ghost var s: seq<byte> := [] + [LBRACE];
    if fmt {
      Put(out, ptr, NEWLINE, s);
      ptr, s := ptr + 1, s + [NEWLINE];
      var k := if depth == 0 then 0 else depth - 1;
      ptr := PutTabs(out, ptr, k, s);
      s := s + Tabs(k);
      assert Tabs(k) == Tabs(depth - 1) by { NegativeTabs(depth); }
    }
    Put(out, ptr, RBRACE, s);
    ptr, s := ptr + 1, s + [RBRACE];
    PutEnd(out, ptr, s);
    assert s == PrintValue(Obj(NoMembers), depth, fmt) by {
      assert fmt ==> s == [LBRACE] + [NEWLINE] + Tabs(depth - 1) + [RBRACE];
    }
  }

  lemma NegativeTabs(depth: nat)
    ensures Tabs(if depth == 0 then 0 else depth - 1) == Tabs(depth - 1)
  {
  }

  lemma ObjectText(members: Members, depth: nat, fmt: bool)
    requires MembersOk(members) && members.Member?
    ensures PrintValue(Obj(members), depth, fmt) ==
            [LBRACE] + If(fmt, [NEWLINE])
            + MemberTexts(NameTexts(members), ValueTexts(members, depth + 1, fmt), depth + 1, fmt)
            + If(fmt, Tabs(depth)) + [RBRACE]
  {
    hide PrintMembers, NameTexts, ValueTexts, MemberTexts, If;
    MembersAreTexts(members, depth + 1, fmt);
  }

  lemma HoldNone(es: seq<array?<byte>>, ts: seq<seq<byte>>)
    ensures Hold(es, 0, ts)
  {
  }

  /** Prints a name and a value; each may fail. */
  method PrintMember(h: Memory, child: Members, depth: nat, fmt: bool)
    returns (str: array?<byte>, ret: array?<byte>, n: nat)
    requires MembersOk(child) && child.Member?
    modifies h
    ensures h.live == old(h.live) + Bag(str) + Bag(ret) && fresh(Bag(str)) && fresh(Bag(ret)) && Bag(str) !! Bag(ret)
    ensures if str == null || ret == null then h.failed else h.failed == old(h.failed)
    ensures str != null ==> CString(str, PrintString(child.name))
    ensures ret != null ==> CString(ret, PrintValue(child.value, depth, fmt))
    ensures str != null && ret != null ==> n == |PrintString(child.name)| + |PrintValue(child.value, depth, fmt)|
    decreases child, 0
  {
    hide CString, PrintValue, PrintString;
    n := 0;
    str := PrintText(h, child.name);
    ret := Print(h, child.value, depth, fmt);
    if str != null && ret != null {
      n := StrLen(ret, PrintValue(child.value, depth, fmt));
      var m := StrLen(str, PrintString(child.name));
      n := n + m;
    }
  }

  /** Prints one name and one value and puts them into their arrays (cJSON.c:472-474). */
  method CollectMember(h: Memory, child: Members, depth: nat, fmt: bool, names: array<array?<byte>>,
                       entries: array<array?<byte>>, i: nat, ghost ns: seq<seq<byte>>, ghost vs: seq<seq<byte>>,
                       ghost live: set<object>)
    returns (ok: bool, n: nat)
    requires MembersOk(child) && child.Member? && names != entries
    requires i < names.Length == entries.Length == |ns| == |vs| && names[i] == null && entries[i] == null
    requires ns[i] == PrintString(child.name) && vs[i] == PrintValue(child.value, depth, fmt)
    requires Collected(live, h.live, names[..], entries[..])
    modifies h, names, entries
    ensures names[..] == old(names[..])[i := names[i]] && entries[..] == old(entries[..])[i := entries[i]]
    ensures Collected(live, h.live, names[..], entries[..])
    ensures !ok ==> h.failed
    ensures ok ==> h.failed == old(h.failed) && n == |ns[i]| + |vs[i]|
    ensures ok && old(Hold(names[..], i, ns) && Hold(entries[..], i, vs)) ==>
              Hold(names[..], i + 1, ns) && Hold(entries[..], i + 1, vs)
    decreases child, 1
  {
    hide PrintValue, CString, PrintString, Collected;
    ghost var live0, names0, entries0 := h.live, names[..], entries[..];
    var str, ret;
    str, ret, n := PrintMember(h, child, depth, fmt);
    CollectedName(live, live0, names0, entries0, i, str);
    CollectedEntry(live, live0 + Bag(str), names0[i := str], entries0, i, ret);
    names[i] := str;
    entries[i] := ret;
    assert names[..] == names0[i := str] && entries[..] == entries0[i := ret];
    ok := str != null && ret != null;
  }

  /** Prints all names and values and adds up their lengths (cJSON.c:468-476); depth is already one more. */
  method CollectMembers(h: Memory, members: Members, depth: nat, fmt: bool, names: array<array?<byte>>,
                        entries: array<array?<byte>>)
    returns (len: nat, fail: bool)
    requires MembersOk(members) && names != entries
    requires names.Length == entries.Length == |NameTexts(members)|
    requires forall k :: 0 <= k < names.Length ==> names[k] == null && entries[k] == null
    modifies h, names, entries
    ensures Collected(old(h.live), h.live, names[..], entries[..])
    ensures fail ==> h.failed
    ensures !fail ==>
              && h.failed == old(h.failed) && Hold(names[..], names.Length, NameTexts(members))
              && Hold(entries[..], entries.Length, ValueTexts(members, depth, fmt))
              && len == 7 + (if fmt then depth else 0)
                        + PairRoom(NameTexts(members), ValueTexts(members, depth, fmt), 2 + if fmt then 2 + depth else 0)
    decreases members, 2
  {
    hide PrintValue, NameTexts, ValueTexts, CString, PairRoom, MemberTexts, PrintString, Hold, Collected;
    ghost var ns, vs := NameTexts(members), ValueTexts(members, depth, fmt);
    var extra := 2 + if fmt then 2 + depth else 0;
    len, fail := 7 + (if fmt then depth else 0), false;
    ghost var base := len;
    var child, i := members, 0;
    assert ns[0..] == ns && vs[0..] == vs;
    HoldNone(names[..], ns);
    HoldNone(entries[..], vs);
    CollectedNone(h.live, names[..], entries[..]);
    while child.Member?
      invariant MembersOk(child) && 0 <= i <= names.Length
      invariant NameTexts(child) == ns[i..] && ValueTexts(child, depth, fmt) == vs[i..]
      invariant child == members || child < members
      invariant forall k :: i <= k < names.Length ==> names[k] == null && entries[k] == null
      invariant Collected(old(h.live), h.live, names[..], entries[..])
      invariant if fail then h.failed else h.failed == old(h.failed)
      invariant !fail ==>
                  && Hold(names[..], i, ns) && Hold(entries[..], i, vs)
                  && len + PairRoom(ns[i..], vs[i..], extra) == base + PairRoom(ns, vs, extra)
      decreases child
    {
      MembersLeft(child, depth, fmt, ns, vs, i, extra);
      var ok, n := CollectMember(h, child, depth, fmt, names, entries, i, ns, vs, old(h.live));
      if ok {
        len := len + n + extra;
      } else {
        fail := true;
      }
      i := i + 1;
      child := child.others;
    }
    MembersStep(child, depth, fmt);
    PairStep(ns[i..], vs[i..], depth, fmt, extra);
  }

  /** The next of the members that are left. */
  lemma MembersLeft(child: Members, depth: nat, fmt: bool, ns: seq<seq<byte>>, vs: seq<seq<byte>>, i: nat, extra: nat)
    requires MembersOk(child) && child.Member? && i <= |ns| == |vs|
    requires NameTexts(child) == ns[i..] && ValueTexts(child, depth, fmt) == vs[i..]
    ensures i < |ns| && ns[i] == PrintString(child.name) && vs[i] == PrintValue(child.value, depth, fmt)
    ensures NameTexts(child.others) == ns[i + 1..] && ValueTexts(child.others, depth, fmt) == vs[i + 1..]
    ensures PairRoom(ns[i..], vs[i..], extra) == |ns[i]| + |vs[i]| + extra + PairRoom(ns[i + 1..], vs[i + 1..], extra)
  {
    hide PrintValue, PrintString, NameTexts, ValueTexts, PairRoom, MemberTexts;
    MembersStep(child, depth, fmt);
    PairStep(ns[i..], vs[i..], depth, fmt, extra);
    RestOf(ns, i);
    RestOf(vs, i);
  }

  /** Puts one member into the text (cJSON.c:494-499). */
  method ComposeMember(out: array<byte>, n0: nat, name: array<byte>, entry: array<byte>, depth: nat, fmt: bool, last: bool,
                       ghost n: seq<byte>, ghost v: seq<byte>, ghost s0: seq<byte>)
    returns (ptr: nat)
    requires Begun(out, n0, s0) && CString(name, n) && CString(entry, v) && name != out && entry != out
    requires n0 + |n| + |v| + 2 + (if fmt then 2 + depth else 0) < out.Length
    modifies out
    ensures Begun(out, ptr, s0 + MemberText(n, v, depth, fmt, last))
    ensures ptr <= n0 + |n| + |v| + 2 + if fmt then 2 + depth else 0
  {
    hide Begun, CString, Tabs, If;
    ghost var a, b, c, d := If(fmt, Tabs(depth)), If(fmt, [TAB]), If(!last, [COMMA]), If(fmt, [NEWLINE]);
    ptr := PutTabsIf(out, n0, fmt, depth, s0);
    ptr := PutAll(out, ptr, name, s0 + a, n);
    Put(out, ptr, COLON, s0 + a + n);
    ptr := PutIf(out, ptr + 1, fmt, TAB, s0 + a + n + [COLON]);
    ptr := PutAll(out, ptr, entry, s0 + a + n + [COLON] + b, v);
    ptr := PutIf(out, ptr, !last, COMMA, s0 + a + n + [COLON] + b + v);
    ptr := PutIf(out, ptr, fmt, NEWLINE, s0 + a + n + [COLON] + b + v + c);
    MemberRegroups(s0, a, n, [COLON], b, v, c, d);
    assert MemberText(n, v, depth, fmt, last) == a + n + [COLON] + b + v + c + d by { WhenLast(last); }
  }

  lemma WhenLast(last: bool)
    ensures If(!last, [COMMA]) == if last then [] else [COMMA]
  {
  }

  lemma MemberRegroups(s: seq<byte>, a: seq<byte>, b: seq<byte>, c: seq<byte>, d: seq<byte>, e: seq<byte>, f: seq<byte>,
                       g: seq<byte>)
    ensures s + a + b + c + d + e + f + g == s + (a + b + c + d + e + f + g)
  {
    assert s + a + b + c == s + (a + b + c);
    assert s + (a + b + c) + d + e == s + (a + b + c + d + e);
  }

  /** Puts the object together and frees its parts (cJSON.c:491-506). */
  method ComposeObject(h: Memory, out: array<byte>, names: array<array?<byte>>, entries: array<array?<byte>>,
                       depth: nat, fmt: bool, ghost ns: seq<seq<byte>>, ghost vs: seq<seq<byte>>,
                       ghost live: set<object>)
    requires |ns| == |vs| == names.Length == entries.Length && depth > 0
    requires Hold(names[..], names.Length, ns) && Hold(entries[..], entries.Length, vs)
    requires out !in names[..] && out !in entries[..]
    requires out.Length == 7 + (if fmt then depth else 0) + PairRoom(ns, vs, 2 + if fmt then 2 + depth else 0)
    requires names != entries && Collected(live, h.live, names[..], entries[..])
    modifies h, out
    ensures CString(out, [LBRACE] + If(fmt, [NEWLINE]) + MemberTexts(ns, vs, depth, fmt)
                         + If(fmt, Tabs(depth - 1)) + [RBRACE])
    ensures h.live == live && h.failed == old(h.failed)
  {
    hide CString, Begun, MemberTexts, PairRoom, MemberText, Tabs, If, Pieces, Apart;
    ghost var live0 := h.live;
    ghost var extra := 2 + if fmt then 2 + depth else 0;
    ghost var all := [LBRACE] + If(fmt, [NEWLINE]) + MemberTexts(ns, vs, depth, fmt);
    BeginString(out);
    Put(out, 0, LBRACE, []);
    ghost var s: seq<byte> := [] + [LBRACE];
    var ptr: nat := PutIf(out, 1, fmt, NEWLINE, s);
    var i: nat := 0;
    s := s + If(fmt, [NEWLINE]);
    assert ns[0..] == ns && vs[0..] == vs;
    NoPieces(names[..0]);
    NoPieces(entries[..0]);
    while i < names.Length
      invariant i <= names.Length && Begun(out, ptr, s) && all == s + MemberTexts(ns[i..], vs[i..], depth, fmt)
      invariant ptr + PairRoom(ns[i..], vs[i..], extra) + 5 + (if fmt then depth else 0) <= out.Length
      invariant Hold(names[..], names.Length, ns) && Hold(entries[..], entries.Length, vs)
      invariant h.live == live0 - Pieces(names[..i]) - Pieces(entries[..i]) && h.failed == old(h.failed)
    {
      RestOf(ns, i);
      RestOf(vs, i);
      PairStep(ns[i..], vs[i..], depth, fmt, extra);
      assert names[..][i] == names[i] && entries[..][i] == entries[i];
      var last := i == names.Length - 1;
      ghost var part := MemberText(ns[i], vs[i], depth, fmt, last);
      assert s + (part + MemberTexts(ns[i + 1..], vs[i + 1..], depth, fmt)) ==
             s + part + MemberTexts(ns[i + 1..], vs[i + 1..], depth, fmt);
      ptr := ComposeMember(out, ptr, names[i], entries[i], depth, fmt, last, ns[i], vs[i], s);
      FreePair(h, names, entries, i, live0);
      s := s + part;
      i := i + 1;
    }
    assert names[..i] == names[..] && entries[..i] == entries[..];
    PairStep(ns[i..], vs[i..], depth, fmt, extra);
    assert s == all;
    EndObject(out, ptr, depth, fmt, s);
  }

  /** The closing brace (cJSON.c:504-505). */
  method EndObject(out: array<byte>, n: nat, depth: nat, fmt: bool, ghost s: seq<byte>)
    requires Begun(out, n, s) && depth > 0 && n + 2 + (if fmt then depth - 1 else 0) <= out.Length
    modifies out
    ensures CString(out, s + If(fmt, Tabs(depth - 1)) + [RBRACE])
  {
    hide CString, Begun, Tabs, If;
    var ptr := PutTabsIf(out, n, fmt, depth - 1, s);
    Put(out, ptr, RBRACE, s + If(fmt, Tabs(depth - 1)));
    PutEnd(out, ptr + 1, s + If(fmt, Tabs(depth - 1)) + [RBRACE]);
  }
}
