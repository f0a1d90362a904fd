/**
 `cJSON_Minify`: takes blanks and comments out of a text in place.  What it leaves of a formatted text
 is the unformatted one.
 */
module JsonMinify {
  import opened Bytes
  import opened JsonText
  import opened JsonRoundTrip

  const SLASH: byte := 47
  const STAR: byte := 42

  predicate IsBlank(c: byte) {
    c == SPACE || c == TAB || c == 13 || c == NEWLINE
  }

  /** What is left of a text; CutOff if a string or comment in it does not end, which Minify does not expect. */
  datatype Left = Left(s: seq<byte>) | CutOff

  function Prepend(f: seq<byte>, r: Left): Left {
    if r.Left? then Left(f + r.s) else CutOff
  }

  /** The newline or the end of the text, where a // comment ends. */
  function LineStop(t: seq<byte>, p: nat): (r: nat)
    requires p <= |t|
    ensures p <= r <= |t|
    decreases |t| - p
  {
    if At(t, p) == 0 || At(t, p) == NEWLINE then p else LineStop(t, p + 1)
  }

  /** The closing characters of a comment, or the end of the text. */
  function CommentStop(t: seq<byte>, p: nat): (r: nat)
    requires p <= |t|
    ensures p <= r <= |t| && (At(t, r) != 0 ==> r + 2 <= |t|)
    decreases |t| - p
  {
    if At(t, p) == 0 || (At(t, p) == STAR && At(t, p + 1) == SLASH) then p else CommentStop(t, p + 1)
  }

  /** What is left of the text from i on. */
  function Minified(t: seq<byte>, i: nat): Left
    requires i <= |t|
    decreases |t| - i
  {
    var c := At(t, i);
    if c == 0 then Left([])
    else if IsBlank(c) then Minified(t, i + 1)
    else if c == SLASH && At(t, i + 1) == SLASH then Minified(t, LineStop(t, i + 1))
    else if c == SLASH && At(t, i + 1) == STAR then
      var e := CommentStop(t, i + 1);
      if At(t, e) == 0 then CutOff else Minified(t, e + 2)
    else if c == QUOTE then
      var e := StringStop(t, i + 1);
      if At(t, e) == 0 then CutOff else Prepend(t[i..e + 1], Minified(t, e + 1))
    else Prepend([c], Minified(t, i + 1))
  }

  // ---------- In place ----------

  /** From w on the array is as it was, and before that it holds f; what is read is not before w. */
  predicate Written(json: array<byte>, was: seq<byte>, t: seq<byte>, r: nat, w: nat, f: seq<byte>)
    reads json
  {
    && w <= r <= |t| < json.Length && |was| == json.Length
    && was[..|t|] == t && was[|t|] == 0 && NulFree(t)
    && json[w..] == was[w..] && json[..w] == f
  }

  lemma ReadsText(json: array<byte>, was: seq<byte>, t: seq<byte>, r: nat, w: nat, f: seq<byte>)
    requires Written(json, was, t, r, w, f)
    ensures forall k :: r <= k <= |t| ==> json[k] == At(t, k)
    ensures json[r] == 0 <==> r == |t|
  {
    forall k | r <= k <= |t|
      ensures json[k] == At(t, k)
    {
      assert json[k] == json[w..][k - w] == was[w..][k - w] == was[k];
    }
  }

  /** Moves one byte from the place that is read to the place that is written. */
  method Move(json: array<byte>, ghost was: seq<byte>, ghost t: seq<byte>, r: nat, w: nat, ghost f: seq<byte>)
    requires Written(json, was, t, r, w, f) && r < |t|
    modifies json
    ensures Written(json, was, t, r + 1, w + 1, f + [t[r]])
  {
    ReadsText(json, was, t, r, w, f);
    json[w] := json[r];
    assert json[w + 1..] == was[w..][1..];
    assert json[..w + 1] == f + [t[r]];
  }

  /** f and the text between r and q. */
  function Taken(f: seq<byte>, t: seq<byte>, r: nat, q: nat): seq<byte>
    requires r <= q <= |t|
  {
    f + t[r..q]
  }

  /** Moves one more byte of a piece of the text that starts at r. */
  method MoveOn(json: array<byte>, ghost was: seq<byte>, ghost t: seq<byte>, ghost r: nat, q: nat, v: nat,
                ghost f: seq<byte>)
    requires r <= q < |t| && Written(json, was, t, q, v, Taken(f, t, r, q))
    modifies json
    ensures Written(json, was, t, q + 1, v + 1, Taken(f, t, r, q + 1))
  {
    Move(json, was, t, q, v, Taken(f, t, r, q));
    assert t[r..q + 1] == t[r..q] + [t[q]];
    assert Taken(f, t, r, q + 1) == Taken(f, t, r, q) + [t[q]];
  }

  lemma ReadsHere(json: array<byte>, was: seq<byte>, t: seq<byte>, r: nat, w: nat, f: seq<byte>)
    requires Written(json, was, t, r, w, f)
    ensures w <= r <= |t| < json.Length && json[r] == At(t, r)
  {
    ReadsText(json, was, t, r, w, f);
  }

  /** Copies one character of a string, with the backslash before it. */
  method CopyOne(json: array<byte>, ghost was: seq<byte>, ghost t: seq<byte>, ghost r: nat, q: nat, v: nat,
                 ghost f: seq<byte>)
    returns (p: nat, u: nat)
    requires r <= q < |t| && Written(json, was, t, q, v, Taken(f, t, r, q))
    requires json[q] != 0 && json[q] != QUOTE && At(t, StringStop(t, q)) != 0
    modifies json
    ensures q < p <= StringStop(t, q) == StringStop(t, p) < |t| && Written(json, was, t, p, u, Taken(f, t, r, p))
    ensures json[p] == At(t, p)
  {
    hide StringStop, Written, Taken;
    ReadsHere(json, was, t, q, v, Taken(f, t, r, q));
    StopsLater(t, q);
    p, u := q, v;
    if json[p] == BACKSLASH {
      MoveOn(json, was, t, r, p, u, f);
      p, u := p + 1, u + 1;
    }
    MoveOn(json, was, t, r, p, u, f);
    p, u := p + 1, u + 1;
    ReadsHere(json, was, t, p, u, Taken(f, t, r, p));
  }

  /** Copies a string with its quotes (cJSON.c:592). */
  method CopyString(json: array<byte>, ghost was: seq<byte>, ghost t: seq<byte>, r: nat, w: nat, ghost f: seq<byte>)
    returns (q: nat, v: nat)
    requires Written(json, was, t, r, w, f) && r < |t| && t[r] == QUOTE && At(t, StringStop(t, r + 1)) != 0
    modifies json
    ensures q == StringStop(t, r + 1) + 1 && q <= |t| && Written(json, was, t, q, v, Taken(f, t, r, q))
  {
    hide StringStop, Written, Taken;
    ghost var e := StringStop(t, r + 1);
    NothingTaken(f, t, r);
    MoveOn(json, was, t, r, r, w, f);
    q, v := r + 1, w + 1;
    ReadsHere(json, was, t, q, v, Taken(f, t, r, q));
    StopsAfter(t, q);
    while json[q] != 0 && json[q] != QUOTE
      invariant r < q <= e < |t| < json.Length && StringStop(t, q) == e
      invariant Written(json, was, t, q, v, Taken(f, t, r, q))
      decreases |t| - q
    {
      q, v := CopyOne(json, was, t, r, q, v, f);
    }
    ReadsHere(json, was, t, q, v, Taken(f, t, r, q));
    StopsHere(t, q);
    MoveOn(json, was, t, r, q, v, f);
    q, v := q + 1, v + 1;
  }

  lemma NothingTaken(f: seq<byte>, t: seq<byte>, r: nat)
    requires r <= |t|
    ensures Taken(f, t, r, r) == f
  {
  }

  lemma StopsAfter(t: seq<byte>, q: nat)
    requires At(t, StringStop(t, q)) != 0
    ensures q <= StringStop(t, q) < |t|
  {
  }

  lemma StopsHere(t: seq<byte>, q: nat)
    requires At(t, q) == 0 || At(t, q) == QUOTE
    ensures StringStop(t, q) == q
  {
  }

  lemma StopsLater(t: seq<byte>, q: nat)
    requires At(t, q) != 0 && At(t, q) != QUOTE && At(t, StringStop(t, q)) != 0
    ensures var p := q + if At(t, q) == BACKSLASH then 2 else 1;
            StringStop(t, p) == StringStop(t, q) && p <= StringStop(t, q) < |t|
  {
  }

  /** What is left of the whole text is f and what is left from i on. */
  predicate Progress(t: seq<byte>, i: nat, f: seq<byte>) {
    i <= |t| && Minified(t, i).Left? && Minified(t, 0) == Left(f + Minified(t, i).s)
  }

  predicate StartsLine(t: seq<byte>, i: nat) {
    At(t, i) == SLASH && At(t, i + 1) == SLASH
  }

  predicate StartsComment(t: seq<byte>, i: nat) {
    At(t, i) == SLASH && At(t, i + 1) == STAR
  }

  lemma ProgressStep(t: seq<byte>, i: nat, f: seq<byte>)
    requires Progress(t, i, f) && i < |t| && t[i] != 0
    ensures IsBlank(t[i]) ==> Progress(t, i + 1, f)
    ensures StartsLine(t, i) ==> Progress(t, LineStop(t, i + 1), f)
    ensures StartsComment(t, i) ==> CommentStop(t, i + 1) + 2 <= |t| && Progress(t, CommentStop(t, i + 1) + 2, f)
    ensures t[i] == QUOTE ==>
              var e := StringStop(t, i + 1);
              At(t, e) != 0 && i < e < |t| && Progress(t, e + 1, Taken(f, t, i, e + 1))
    ensures !IsBlank(t[i]) && t[i] != QUOTE && !StartsLine(t, i) && !StartsComment(t, i) ==>
              Progress(t, i + 1, f + [t[i]])
  {
    hide LineStop, CommentStop, StringStop, Minified;
    MinifiedStep(t, i);
    if t[i] == QUOTE {
      var e := StringStop(t, i + 1);
      assert f + (t[i..e + 1] + Minified(t, e + 1).s) == Taken(f, t, i, e + 1) + Minified(t, e + 1).s;
    } else if !IsBlank(t[i]) && !StartsLine(t, i) && !StartsComment(t, i) {
      assert f + ([t[i]] + Minified(t, i + 1).s) == (f + [t[i]]) + Minified(t, i + 1).s;
    }
  }

  lemma ProgressEnd(t: seq<byte>, i: nat, f: seq<byte>)
    requires Progress(t, i, f) && At(t, i) == 0
    ensures Minified(t, 0) == Left(f)
  {
    assert f + [] == f;
  }

  /** cJSON_Minify: the place that is written never passes the place that is read. */
  method Minify(json: array<byte>, ghost t: seq<byte>) returns (ghost n: nat)
    requires |t| < json.Length && json[..|t|] == t && json[|t|] == 0 && NulFree(t)
    requires Minified(t, 0).Left?
    modifies json
    ensures n <= |t| && Left(json[..n]) == Minified(t, 0) && json[n] == 0
    ensures json[n + 1..] == old(json[n + 1..])
  {
    hide Minified, LineStop, CommentStop, StringStop, Taken, Progress, Written;
    var into: nat, ptr: nat := 0, 0;
    ghost var was := json[..];
    ghost var f: seq<byte> := [];
    Begin(json, t);
    ReadsHere(json, was, t, ptr, into, f);
    while json[ptr] != 0
      invariant ptr <= |t| < json.Length && Written(json, was, t, ptr, into, f) && Progress(t, ptr, f)
      decreases |t| - ptr
    {
      ReadsNext(json, was, t, ptr, into, f);
      ProgressStep(t, ptr, f);
      if IsBlank(json[ptr]) {
        ptr := ptr + 1;
      } else if json[ptr] == SLASH && json[ptr + 1] == SLASH {
        ptr := SkipLine(json, was, t, ptr + 1, into, f);
      } else if json[ptr] == SLASH && json[ptr + 1] == STAR {
        ptr := SkipComment(json, was, t, ptr + 1, into, f);
        ptr := ptr + 2;
      } else if json[ptr] == QUOTE {
        ghost var r := ptr;
        ptr, into := CopyString(json, was, t, ptr, into, f);
        f := Taken(f, t, r, ptr);
      } else {
        Move(json, was, t, ptr, into, f);
        f := f + [t[ptr]];
        ptr, into := ptr + 1, into + 1;
      }
      StaysBehind(json, was, t, ptr, into, f);
    }
    ReadsHere(json, was, t, ptr, into, f);
    ProgressEnd(t, ptr, f);
    Ends(json, was, t, ptr, into, f);
    json[into] := 0;
    n := into;
    assert json[n + 1..] == was[n + 1..] && json[..n] == f;
  }

  lemma Begin(json: array<byte>, t: seq<byte>)
    requires |t| < json.Length && json[..|t|] == t && json[|t|] == 0 && NulFree(t) && Minified(t, 0).Left?
    ensures Written(json, json[..], t, 0, 0, []) && Progress(t, 0, [])
  {
    hide Minified;
    assert [] + Minified(t, 0).s == Minified(t, 0).s;
  }

  lemma ReadsNext(json: array<byte>, was: seq<byte>, t: seq<byte>, r: nat, w: nat, f: seq<byte>)
    requires Written(json, was, t, r, w, f) && json[r] != 0
    ensures r < |t| < json.Length && json[r] == t[r] && json[r + 1] == At(t, r + 1)
    ensures forall p: nat :: r <= p <= |t| ==> Written(json, was, t, p, w, f)
  {
    ReadsText(json, was, t, r, w, f);
  }

  lemma StaysBehind(json: array<byte>, was: seq<byte>, t: seq<byte>, r: nat, w: nat, f: seq<byte>)
    requires Written(json, was, t, r, w, f)
    ensures r <= |t| < json.Length
  {
  }

  lemma Ends(json: array<byte>, was: seq<byte>, t: seq<byte>, r: nat, w: nat, f: seq<byte>)
    requires Written(json, was, t, r, w, f)
    ensures w <= |t| < json.Length == |was| && json[..w] == f && json[w + 1..] == was[w + 1..]
  {
    assert json[w + 1..] == json[w..][1..] && was[w + 1..] == was[w..][1..];
  }

  lemma MinifiedEnd(t: seq<byte>, i: nat)
    requires i <= |t| && At(t, i) == 0
    ensures Minified(t, i) == Left([])
  {
  }

  lemma MinifiedStep(t: seq<byte>, i: nat)
    requires i < |t| && t[i] != 0 && Minified(t, i).Left?
    ensures IsBlank(t[i]) ==> Minified(t, i) == Minified(t, i + 1)
    ensures t[i] == SLASH && At(t, i + 1) == SLASH ==> Minified(t, i) == Minified(t, LineStop(t, i + 1))
    ensures t[i] == SLASH && At(t, i + 1) == STAR ==>
              var e := CommentStop(t, i + 1);
              At(t, e) != 0 && e + 2 <= |t| && Minified(t, i) == Minified(t, e + 2)
    ensures t[i] == QUOTE ==>
              var e := StringStop(t, i + 1);
              At(t, e) != 0 && e < |t| && Minified(t, i) == Prepend(t[i..e + 1], Minified(t, e + 1))
    ensures !IsBlank(t[i]) && t[i] != QUOTE && !(t[i] == SLASH && (At(t, i + 1) == SLASH || At(t, i + 1) == STAR)) ==>
              Minified(t, i) == Prepend([t[i]], Minified(t, i + 1))
  {
    hide LineStop, CommentStop, StringStop;
  }

  method SkipLine(json: array<byte>, ghost was: seq<byte>, ghost t: seq<byte>, r: nat, w: nat, ghost f: seq<byte>)
    returns (p: nat)
    requires Written(json, was, t, r, w, f)
    ensures p == LineStop(t, r)
  {
    ReadsText(json, was, t, r, w, f);
    p := r;
    while json[p] != 0 && json[p] != NEWLINE
      invariant r <= p <= |t| && LineStop(t, p) == LineStop(t, r)
      decreases |t| - p
    {
      p := p + 1;
    }
  }

  method SkipComment(json: array<byte>, ghost was: seq<byte>, ghost t: seq<byte>, r: nat, w: nat, ghost f: seq<byte>)
    returns (p: nat)
    requires Written(json, was, t, r, w, f)
    ensures p == CommentStop(t, r)
  {
    ReadsText(json, was, t, r, w, f);
    p := r;
    while json[p] != 0 && !(json[p] == STAR && json[p + 1] == SLASH)
      invariant r <= p <= |t| && CommentStop(t, p) == CommentStop(t, r)
      decreases |t| - p
    {
      p := p + 1;
    }
  }

  // ---------- Formatted text ----------

  predicate IsPlain(c: byte) {
    c != 0 && !IsBlank(c) && c != SLASH && c != QUOTE
  }

  /** From i on, f is left of the next n bytes, and then what is left after them. */
  predicate Leaves(t: seq<byte>, i: nat, n: nat, f: seq<byte>) {
    i + n <= |t| && Minified(t, i) == Prepend(f, Minified(t, i + n))
  }

  lemma LeavesBoth(t: seq<byte>, i: nat, n: nat, f: seq<byte>, m: nat, g: seq<byte>)
    requires Leaves(t, i, n, f) && Leaves(t, i + n, m, g)
    ensures Leaves(t, i, n + m, f + g)
  {
    hide Minified;
    var r := Minified(t, i + n + m);
    if r.Left? {
      assert f + (g + r.s) == (f + g) + r.s;
    }
  }

  lemma {:induction false} BlankLeaves(t: seq<byte>, i: nat, s: seq<byte>)
    requires HasAt(t, i, s) && forall k :: 0 <= k < |s| ==> IsBlank(s[k])
    ensures Leaves(t, i, |s|, [])
    decreases |s|
  {
    hide HasAt;
    if s == [] {
      HasAtInside(t, i, s);
      assert Minified(t, i) == Prepend([], Minified(t, i)) by { PrependNothing(Minified(t, i)); }
    } else {
      assert s == [s[0]] + s[1..];
      HasAtSplit(t, i, [s[0]], s[1..]);
      HasAtByte(t, i, s, 0);
      HasAtInside(t, i, s);
      BlankLeaves(t, i + 1, s[1..]);
    }
  }

  lemma PrependNothing(r: Left)
    ensures Prepend([], r) == r
  {
  }

  lemma {:induction false} PlainLeaves(t: seq<byte>, i: nat, s: seq<byte>)
    requires HasAt(t, i, s) && forall k :: 0 <= k < |s| ==> IsPlain(s[k])
    ensures Leaves(t, i, |s|, s)
    decreases |s|
  {
    hide HasAt;
    HasAtInside(t, i, s);
    if s == [] {
      PrependNothing(Minified(t, i));
    } else {
      assert s == [s[0]] + s[1..];
      HasAtSplit(t, i, [s[0]], s[1..]);
      HasAtByte(t, i, s, 0);
      PlainLeaves(t, i + 1, s[1..]);
      assert Leaves(t, i, 1, [s[0]]);
      LeavesBoth(t, i, 1, [s[0]], |s| - 1, s[1..]);
    }
  }

  lemma StringLeaves(t: seq<byte>, i: nat, s: seq<byte>)
    requires NulFree(s) && HasAt(t, i, PrintString(s))
    ensures Leaves(t, i, |PrintString(s)|, PrintString(s))
  {
    hide HasAt, Escape, StringStop;
    var f := PrintString(s);
    assert f == [QUOTE] + (Escape(s) + [QUOTE]);
    HasAtSplit(t, i, [QUOTE], Escape(s) + [QUOTE]);
    HasAtByte(t, i, [QUOTE], 0);
    HasAtInside(t, i, f);
    EscapeStops(t, i + 1, s);
    assert t[i..i + |f|] == f by { HasAtMeans(t, i, f); }
  }

  lemma HasAtMeans(t: seq<byte>, i: nat, f: seq<byte>)
    requires HasAt(t, i, f)
    ensures i + |f| <= |t| && t[i..i + |f|] == f
  {
  }

  lemma PrintIntPlain(n: int)
    ensures forall k :: 0 <= k < |PrintInt(n)| ==> IsPlain(PrintInt(n)[k])
  {
    hide Digits;
    DigitsAreDigits(if n < 0 then -n else n);
  }

  /** From a formatted value its unformatted form is left. */
  lemma {:induction false} ValueLeaves(t: seq<byte>, i: nat, v: Value, depth: nat, e: nat)
    requires ValueOk(v) && HasAt(t, i, PrintValue(v, depth, true))
    ensures Leaves(t, i, |PrintValue(v, depth, true)|, PrintValue(v, e, false))
    decreases v
  {
    hide HasAt, Leaves, PrintItems, PrintString, PrintInt, IsPlain, Tabs;
    match v
    case Null => PlainWord(NULL_TEXT); PlainLeaves(t, i, NULL_TEXT);
    case False => PlainWord(FALSE_TEXT); PlainLeaves(t, i, FALSE_TEXT);
    case True => PlainWord(TRUE_TEXT); PlainLeaves(t, i, TRUE_TEXT);
    case Number(d) => PrintIntPlain(d.Floor); PlainLeaves(t, i, PrintInt(d.Floor));
    case Str(s) => StringLeaves(t, i, s);
    case Arr(items) => ArrayLeaves(t, i, v, depth, e);
    case Obj(members) => ObjectLeaves(t, i, v, depth, e);
  }

  lemma PlainWord(f: seq<byte>)
    requires f == NULL_TEXT || f == FALSE_TEXT || f == TRUE_TEXT
    ensures forall k :: 0 <= k < |f| ==> IsPlain(f[k])
  {
  }

  lemma PlainByte(c: byte)
    requires c == COMMA || c == COLON || c == LBRACKET || c == RBRACKET || c == LBRACE || c == RBRACE
    ensures forall k :: 0 <= k < |[c]| ==> IsPlain([c][k])
  {
  }

  /** One punctuation character and what follows. */
  lemma ByteLeaves(t: seq<byte>, i: nat, c: byte, f: seq<byte>)
    requires c == COMMA || c == COLON || c == LBRACKET || c == RBRACKET || c == LBRACE || c == RBRACE
    requires HasAt(t, i, [c] + f)
    ensures Leaves(t, i, 1, [c]) && HasAt(t, i + 1, f)
  {
    hide HasAt, Leaves, IsPlain;
    HasAtSplit(t, i, [c], f);
    PlainByte(c);
    PlainLeaves(t, i, [c]);
  }

  lemma LastByteLeaves(t: seq<byte>, i: nat, c: byte)
    requires c == RBRACKET || c == RBRACE
    requires HasAt(t, i, [c])
    ensures Leaves(t, i, 1, [c])
  {
    hide HasAt, Leaves, IsPlain;
    PlainByte(c);
    PlainLeaves(t, i, [c]);
  }

  lemma {:induction false} ArrayLeaves(t: seq<byte>, i: nat, v: Value, depth: nat, e: nat)
    requires ValueOk(v) && v.Arr? && HasAt(t, i, PrintValue(v, depth, true))
    ensures Leaves(t, i, |PrintValue(v, depth, true)|, PrintValue(v, e, false))
    decreases v, 0
  {
    hide HasAt, Leaves, PrintItems;
    var f, g := PrintItems(v.items, depth + 1, true), PrintItems(v.items, e + 1, false);
    assert PrintValue(v, depth, true) == [LBRACKET] + (f + [RBRACKET]);
    assert PrintValue(v, e, false) == [LBRACKET] + (g + [RBRACKET]);
    ByteLeaves(t, i, LBRACKET, f + [RBRACKET]);
    ItemsLeave(t, i + 1, v.items, depth + 1, e + 1);
    LeavesBoth(t, i, 1, [LBRACKET], |f| + 1, g + [RBRACKET]);
  }

  lemma {:induction false} ItemsLeave(t: seq<byte>, i: nat, items: Items, depth: nat, e: nat)
    requires ItemsOk(items) && HasAt(t, i, PrintItems(items, depth, true) + [RBRACKET])
    ensures Leaves(t, i, |PrintItems(items, depth, true) + [RBRACKET]|, PrintItems(items, e, false) + [RBRACKET])
    decreases items, 0
  {
    hide HasAt, Leaves, PrintItems, PrintValue, AfterItem;
    if items.NoItems? {
      NothingInside(depth, true);
      NothingInside(e, false);
      assert [] + [RBRACKET] == [RBRACKET];
      LastByteLeaves(t, i, RBRACKET);
    } else {
      var p, q := PrintValue(items.value, depth, true), PrintValue(items.value, e, false);
      var f, g := AfterItem(items.rest, depth, true), AfterItem(items.rest, e, false);
      ItemsParts(items, depth, true);
      ItemsParts(items, e, false);
      HasAtSplit(t, i, p, f);
      ValueLeaves(t, i, items.value, depth, e);
      AfterItemLeaves(t, i + |p|, items.rest, depth, e);
      LeavesBoth(t, i, |p|, q, |f|, g);
    }
  }

  lemma {:induction false} AfterItemLeaves(t: seq<byte>, i: nat, rest: Items, depth: nat, e: nat)
    requires ItemsOk(rest) && HasAt(t, i, AfterItem(rest, depth, true))
    ensures Leaves(t, i, |AfterItem(rest, depth, true)|, AfterItem(rest, e, false))
    decreases rest, 1
  {
    hide HasAt, Leaves, PrintItems;
    if rest.NoItems? {
      LastByteLeaves(t, i, RBRACKET);
    } else {
      var f, g := PrintItems(rest, depth, true) + [RBRACKET], PrintItems(rest, e, false) + [RBRACKET];
      ByteLeaves(t, i, COMMA, [SPACE] + f);
      HasAtSplit(t, i + 1, [SPACE], f);
      BlankLeaves(t, i + 1, [SPACE]);
      ItemsLeave(t, i + 2, rest, depth, e);
      LeavesBoth(t, i + 1, 1, [], |f|, g);
      LeavesBoth(t, i, 1, [COMMA], 1 + |f|, [] + g);
    }
  }

  lemma TabsAreBlank(n: int)
    ensures forall k :: 0 <= k < |Tabs(n)| ==> IsBlank(Tabs(n)[k])
    ensures forall k :: 0 <= k < |[NEWLINE] + Tabs(n)| ==> IsBlank(([NEWLINE] + Tabs(n))[k])
  {
  }

  lemma {:induction false} ObjectLeaves(t: seq<byte>, i: nat, v: Value, depth: nat, e: nat)
    requires ValueOk(v) && v.Obj? && HasAt(t, i, PrintValue(v, depth, true))
    ensures Leaves(t, i, |PrintValue(v, depth, true)|, PrintValue(v, e, false))
    decreases v, 0
  {
    hide HasAt, Leaves, PrintMembers, PrintValue, Tabs;
    ObjectParts(v, depth, true);
    ObjectParts(v, e, false);
    if v.members.NoMembers? {
      var blank := [NEWLINE] + Tabs(depth - 1);
      ByteLeaves(t, i, LBRACE, blank + [RBRACE]);
      HasAtSplit(t, i + 1, blank, [RBRACE]);
      TabsAreBlank(depth - 1);
      BlankLeaves(t, i + 1, blank);
      LastByteLeaves(t, i + 1 + |blank|, RBRACE);
      LeavesBoth(t, i + 1, |blank|, [], 1, [RBRACE]);
      LeavesBoth(t, i, 1, [LBRACE], |blank| + 1, [] + [RBRACE]);
    } else {
      var f := PrintMembers(v.members, depth + 1, true) + Tabs(depth) + [RBRACE];
      var g := PrintMembers(v.members, e + 1, false) + [] + [RBRACE];
      ByteLeaves(t, i, LBRACE, [NEWLINE] + f);
      HasAtSplit(t, i + 1, [NEWLINE], f);
      BlankLeaves(t, i + 1, [NEWLINE]);
      MembersLeave(t, i + 2, v.members, depth + 1, depth, e + 1);
      LeavesBoth(t, i + 1, 1, [], |f|, g);
      LeavesBoth(t, i, 1, [LBRACE], 1 + |f|, [] + g);
    }
  }

  lemma {:induction false} MembersLeave(t: seq<byte>, i: nat, ms: Members, depth: nat, d: nat, e: nat)
    requires MembersOk(ms)
    requires HasAt(t, i, PrintMembers(ms, depth, true) + Tabs(d) + [RBRACE])
    ensures Leaves(t, i, |PrintMembers(ms, depth, true) + Tabs(d) + [RBRACE]|, PrintMembers(ms, e, false) + [] + [RBRACE])
    decreases ms, 0
  {
    hide HasAt, Leaves, PrintMembers, PrintValue, Tabs, PrintString, AfterMember;
    if ms.NoMembers? {
      NothingInside(depth, true);
      NothingInside(e, false);
      assert [] + Tabs(d) == Tabs(d);
      HasAtSplit(t, i, Tabs(d), [RBRACE]);
      TabsAreBlank(d);
      BlankLeaves(t, i, Tabs(d));
      LastByteLeaves(t, i + |Tabs(d)|, RBRACE);
      LeavesBoth(t, i, |Tabs(d)|, [], 1, [RBRACE]);
    } else {
      var n, p, q := PrintString(ms.name), PrintValue(ms.value, depth, true), PrintValue(ms.value, e, false);
      var f, g := AfterMember(ms.others, depth, true, d), AfterMember(ms.others, e, false, 0);
      var tabs := Tabs(depth);
      MembersParts(ms, depth, true, d);
      MembersParts(ms, e, false, 0);
      HasAtSplit(t, i, tabs, n + ([COLON] + ([TAB] + (p + f))));
      TabsAreBlank(depth);
      BlankLeaves(t, i, tabs);
      var a := i + |tabs|;
      HasAtSplit(t, a, n, [COLON] + ([TAB] + (p + f)));
      StringLeaves(t, a, ms.name);
      ByteLeaves(t, a + |n|, COLON, [TAB] + (p + f));
      var b := a + |n| + 1;
      HasAtSplit(t, b, [TAB], p + f);
      BlankLeaves(t, b, [TAB]);
      HasAtSplit(t, b + 1, p, f);
      ValueLeaves(t, b + 1, ms.value, depth, e);
      AfterLeaves(t, b + 1 + |p|, ms.others, depth, d, e);
      LeavesBoth(t, b + 1, |p|, q, |f|, g);
      LeavesBoth(t, b, 1, [], |p| + |f|, q + g);
      LeavesBoth(t, a + |n|, 1, [COLON], 1 + |p| + |f|, [] + (q + g));
      LeavesBoth(t, a, |n|, n, 2 + |p| + |f|, [COLON] + ([] + (q + g)));
      LeavesBoth(t, i, |tabs|, [], |n| + 2 + |p| + |f|, n + ([COLON] + ([] + (q + g))));
    }
  }

  /** A comma if there are more members, a line end, and then what follows. */
  lemma {:induction false} AfterLeaves(t: seq<byte>, i: nat, others: Members, depth: nat, d: nat, e: nat)
    requires MembersOk(others) && HasAt(t, i, AfterMember(others, depth, true, d))
    ensures Leaves(t, i, |AfterMember(others, depth, true, d)|, AfterMember(others, e, false, 0))
    decreases others, 1
  {
    hide HasAt, Leaves, PrintMembers, Tabs;
    var f, g := PrintMembers(others, depth, true) + Tabs(d) + [RBRACE], PrintMembers(others, e, false) + [] + [RBRACE];
    var c := if others.NoMembers? then [] else [COMMA];
    HasAtSplit(t, i, c, [NEWLINE] + f);
    if others.NoMembers? {
      BlankLeaves(t, i, c);
    } else {
      ByteLeaves(t, i, COMMA, [NEWLINE] + f);
    }
    HasAtSplit(t, i + |c|, [NEWLINE], f);
    BlankLeaves(t, i + |c|, [NEWLINE]);
    MembersLeave(t, i + |c| + 1, others, depth, d, e);
    LeavesBoth(t, i + |c|, 1, [], |f|, g);
    LeavesBoth(t, i, |c|, c, 1 + |f|, [] + g);
  }

  /** cJSON_Minify turns what cJSON_Print gives into what cJSON_PrintUnformatted gives. */
  lemma MinifyFormattedIsCompact(v: Value)
    requires ValueOk(v)
    ensures Minified(PrintValue(v, 0, true), 0) == Left(PrintValue(v, 0, false))
  {
    hide PrintValue;
    var t := PrintValue(v, 0, true);
    assert HasAt(t, 0, t);
    ValueLeaves(t, 0, v, 0, 0);
    MinifiedEnd(t, |t|);
  }
}
