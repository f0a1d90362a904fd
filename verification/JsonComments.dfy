/**
 What `cJSON_Minify` takes out, with the bytes written out: a text is cut into blanks, strings, comments of both kinds
 and other characters; strings and other characters are what is left.  Every text that it does not read past can be cut
 like this.
 */
module JsonComments {
  import opened Bytes
  import opened JsonText
  import opened JsonMinify

  /**
   A blank, a string, a comment up to the end of its line, a comment between slashes and stars, a slash, a star and a
   slash, where one star both opens and closes a comment, or any other character.
   */
  datatype Part =
    | Blank(b: byte)
    | Quoted(body: seq<byte>)
    | Line(c: seq<byte>)
    | Block(c: seq<byte>)
    | Shut
    | Other(b: byte)

  function PartText(p: Part): seq<byte> {
    match p
    case Blank(b) => [b]
    case Quoted(body) => [34] + body + [34]
    case Line(c) => [47, 47] + c
    case Block(c) => [47, 42] + c + [42, 47]
    case Shut => [47, 42, 47]
    case Other(b) => [b]
  }

  /** What is left of it: strings as they are, quotes included, and other characters. */
  function PartLeft(p: Part): seq<byte> {
    if p.Quoted? || p.Other? then PartText(p) else []
  }

  /** Between its quotes a string has no quote but behind a backslash. */
  predicate BodyOk(s: seq<byte>) {
    s != [] ==>
      if s[0] == 92 then |s| > 1 && s[1] != 0 && BodyOk(s[2..])
      else s[0] != 34 && s[0] != 0 && BodyOk(s[1..])
  }

  /**
   A part of a text that goes on with `next`.  A slash alone starts no comment; a comment up to the end of its line goes
   on as far; and there is no star before a slash inside the other kind.
   */
  predicate PartOk(p: Part, next: seq<byte>) {
    match p
    case Blank(b) => b == 32 || b == 9 || b == 13 || b == 10
    case Quoted(body) => BodyOk(body)
    case Line(c) => 0 !in c && 10 !in c && (next == [] || next[0] == 10)
    case Block(c) => 0 !in c && forall k :: 0 <= k < |c| ==> !(([42] + c)[k] == 42 && c[k] == 47)
    case Shut => true
    case Other(b) =>
      && b != 0 && b != 34 && b != 32 && b != 9 && b != 13 && b != 10
      && (b == 47 && next != [] ==> next[0] != 47 && next[0] != 42)
  }

  function PartsText(ps: seq<Part>): seq<byte> {
    if ps == [] then [] else PartText(ps[0]) + PartsText(ps[1..])
  }

  function PartsLeft(ps: seq<Part>): seq<byte> {
    if ps == [] then [] else PartLeft(ps[0]) + PartsLeft(ps[1..])
  }

  predicate PartsOk(ps: seq<Part>, next: seq<byte>) {
    ps != [] ==> PartOk(ps[0], PartsText(ps[1..]) + next) && PartsOk(ps[1..], next)
  }

  // ---------- One part ----------

  lemma {:induction false} BodyStops(t: seq<byte>, p: nat, s: seq<byte>)
    requires HasAt(t, p, s + [34]) && BodyOk(s)
    ensures StringStop(t, p) == p + |s| && At(t, p + |s|) == 34
    decreases |s|
  {
    HasAtByte(t, p, s + [34], 0);
    if s != [] {
      var n := if s[0] == 92 then 2 else 1;
      assert s + [34] == s[..n] + (s[n..] + [34]);
      HasAtSplit(t, p, s[..n], s[n..] + [34]);
      if n == 2 {
        HasAtByte(t, p, s + [34], 1);
      }
      BodyStops(t, p + n, s[n..]);
    }
  }

  lemma {:induction false} LineStops(t: seq<byte>, p: nat, e: nat)
    requires p <= e <= |t| && (forall k :: p <= k < e ==> t[k] != 0 && t[k] != 10) && (At(t, e) == 0 || At(t, e) == 10)
    ensures LineStop(t, p) == e
    decreases e - p
  {
    if p < e {
      LineStops(t, p + 1, e);
    }
  }

  lemma {:induction false} CommentStops(t: seq<byte>, p: nat, e: nat)
    requires p <= e < |t| && (forall k :: p <= k < e ==> t[k] != 0 && !(t[k] == 42 && t[k + 1] == 47))
    requires At(t, e) == 42 && At(t, e + 1) == 47
    ensures CommentStop(t, p) == e
    decreases e - p
  {
    if p < e {
      CommentStops(t, p + 1, e);
    }
  }

  lemma PartLeaves(t: seq<byte>, i: nat, p: Part)
    requires HasAt(t, i, PartText(p)) && PartOk(p, t[i + |PartText(p)|..])
    ensures var e := i + |PartText(p)|; e <= |t| && Minified(t, i) == Prepend(PartLeft(p), Minified(t, e))
  {
    hide StringStop, LineStop, CommentStop;
    var f := PartText(p);
    var e := i + |f|;
    HasAtByte(t, i, f, 0);
    match p
    case Blank(_) =>
    case Quoted(body) => QuotedLeaves(t, i, body);
    case Line(c) => LineLeaves(t, i, c);
    case Block(c) => BlockLeaves(t, i, c);
    case Shut =>
      HasAtByte(t, i, f, 1);
      HasAtByte(t, i, f, 2);
      CommentStops(t, i + 1, i + 1);
    case Other(b) =>
      assert t[e..] != [] ==> t[e..][0] == t[e];
  }

  lemma QuotedLeaves(t: seq<byte>, i: nat, body: seq<byte>)
    requires HasAt(t, i, [34] + body + [34]) && BodyOk(body)
    ensures var e := i + |body| + 2; e <= |t| && Minified(t, i) == Prepend([34] + body + [34], Minified(t, e))
  {
    hide StringStop, LineStop, CommentStop;
    assert [34] + body + [34] == [34] + (body + [34]);
    HasAtSplit(t, i, [34], body + [34]);
    HasAtByte(t, i, [34], 0);
    BodyStops(t, i + 1, body);
  }

  lemma LineLeaves(t: seq<byte>, i: nat, c: seq<byte>)
    requires HasAt(t, i, [47, 47] + c) && 0 !in c && 10 !in c
    requires var e := i + 2 + |c|; e == |t| || t[e] == 10
    ensures var e := i + 2 + |c|; e <= |t| && Minified(t, i) == Minified(t, e)
  {
    hide StringStop, LineStop, CommentStop;
    var f := [47, 47] + c;
    var e := i + |f|;
    HasAtByte(t, i, f, 0);
    HasAtByte(t, i, f, 1);
    forall k | i + 1 <= k < e
      ensures t[k] != 0 && t[k] != 10
    {
      HasAtByte(t, i, f, k - i);
      assert k > i + 1 ==> f[k - i] in c;
    }
    LineStops(t, i + 1, e);
  }

  lemma BlockLeaves(t: seq<byte>, i: nat, c: seq<byte>)
    requires HasAt(t, i, [47, 42] + c + [42, 47]) && PartOk(Block(c), [])
    ensures var e := i + 4 + |c|; e <= |t| && Minified(t, i) == Minified(t, e)
  {
    hide StringStop, LineStop, CommentStop;
    var f := [47, 42] + c + [42, 47];
    var s := i + 2 + |c|;
    HasAtByte(t, i, f, 0);
    HasAtByte(t, i, f, 1);
    HasAtByte(t, i, f, 2 + |c|);
    HasAtByte(t, i, f, 3 + |c|);
    forall k | i + 1 <= k < s
      ensures t[k] != 0 && !(t[k] == 42 && t[k + 1] == 47)
    {
      var j := k - i - 1;
      HasAtByte(t, i, f, k - i);
      HasAtByte(t, i, f, k - i + 1);
      assert f[k - i] == ([42] + c)[j];
      if j < |c| {
        assert f[k - i + 1] == c[j];
      }
      if j > 0 {
        assert f[k - i] in c;
      }
    }
    CommentStops(t, i + 1, s);
  }

  // ---------- Many parts ----------

  lemma PrependTwice(f: seq<byte>, g: seq<byte>, r: Left)
    ensures Prepend(f, Prepend(g, r)) == Prepend(f + g, r)
  {
    if r.Left? {
      assert f + (g + r.s) == (f + g) + r.s;
    }
  }

  lemma {:induction false} PartsLeave(t: seq<byte>, i: nat, ps: seq<Part>)
    requires HasAt(t, i, PartsText(ps)) && PartsOk(ps, t[i + |PartsText(ps)|..])
    ensures var e := i + |PartsText(ps)|; e <= |t| && Minified(t, i) == Prepend(PartsLeft(ps), Minified(t, e))
    decreases |ps|
  {
    hide PartOk, PartText, Minified, PartLeft;
    if ps != [] {
      var f, rest := PartText(ps[0]), PartsText(ps[1..]);
      var e := i + |PartsText(ps)|;
      HasAtSplit(t, i, f, rest);
      assert t[i + |f|..] == rest + t[e..];
      PartLeaves(t, i, ps[0]);
      PartsLeave(t, i + |f|, ps[1..]);
      PrependTwice(PartLeft(ps[0]), PartsLeft(ps[1..]), Minified(t, e));
    } else if Minified(t, i).Left? {
      assert [] + Minified(t, i).s == Minified(t, i).s;
    }
  }

  // ---------- What is behind does not depend on what is before ----------

  lemma {:induction false} StringStopShifts(a: seq<byte>, b: seq<byte>, p: nat)
    ensures StringStop(a + b, |a| + p) == |a| + StringStop(b, p)
    decreases if p < |b| then |b| - p else 0
  {
    assert At(a + b, |a| + p) == At(b, p) && At(a + b, |a| + p + 1) == At(b, p + 1);
    if !(At(b, p) == 0 || At(b, p) == 34) {
      if At(b, p) != 92 {
        StringStopShifts(a, b, p + 1);
      } else if At(b, p + 1) != 0 {
        StringStopShifts(a, b, p + 2);
      }
    }
  }

  lemma {:induction false} LineStopShifts(a: seq<byte>, b: seq<byte>, p: nat)
    requires p <= |b|
    ensures LineStop(a + b, |a| + p) == |a| + LineStop(b, p)
    decreases |b| - p
  {
    assert At(a + b, |a| + p) == At(b, p);
    if !(At(b, p) == 0 || At(b, p) == 10) {
      LineStopShifts(a, b, p + 1);
    }
  }

  lemma {:induction false} CommentStopShifts(a: seq<byte>, b: seq<byte>, p: nat)
    requires p <= |b|
    ensures CommentStop(a + b, |a| + p) == |a| + CommentStop(b, p)
    decreases |b| - p
  {
    assert At(a + b, |a| + p) == At(b, p) && At(a + b, |a| + p + 1) == At(b, p + 1);
    if !(At(b, p) == 0 || (At(b, p) == 42 && At(b, p + 1) == 47)) {
      CommentStopShifts(a, b, p + 1);
    }
  }

  lemma {:induction false} MinifiedShifts(a: seq<byte>, b: seq<byte>, i: nat)
    requires i <= |b|
    ensures Minified(a + b, |a| + i) == Minified(b, i)
    decreases |b| - i
  {
    hide StringStop, LineStop, CommentStop;
    assert forall k: nat :: At(a + b, |a| + k) == At(b, k);
    var c := At(b, i);
    if c == 0 {
    } else if IsBlank(c) {
      MinifiedShifts(a, b, i + 1);
    } else if c == 47 && At(b, i + 1) == 47 {
      LineStopShifts(a, b, i + 1);
      MinifiedShifts(a, b, LineStop(b, i + 1));
    } else if c == 47 && At(b, i + 1) == 42 {
      CommentStopShifts(a, b, i + 1);
      var e := CommentStop(b, i + 1);
      if At(b, e) != 0 {
        MinifiedShifts(a, b, e + 2);
      }
    } else if c == 34 {
      StringStopShifts(a, b, i + 1);
      var e := StringStop(b, i + 1);
      if At(b, e) != 0 {
        assert (a + b)[|a| + i..|a| + e + 1] == b[i..e + 1];
        MinifiedShifts(a, b, e + 1);
      }
    } else {
      MinifiedShifts(a, b, i + 1);
    }
  }

  /** What is left of the parts, whatever text follows, and then of that. */
  lemma PartsThenText(ps: seq<Part>, b: seq<byte>)
    requires PartsOk(ps, b)
    ensures Minified(PartsText(ps) + b, 0) == Prepend(PartsLeft(ps), Minified(b, 0))
  {
    hide PartsOk, Minified;
    var a := PartsText(ps);
    assert (a + b)[0..0 + |a|] == a && (a + b)[|a|..] == b;
    PartsLeave(a + b, 0, ps);
    MinifiedShifts(a, b, 0);
  }

  /** A text of parts: what is left. */
  lemma MinifyLeaves(ps: seq<Part>)
    requires PartsOk(ps, [])
    ensures Minified(PartsText(ps), 0) == Left(PartsLeft(ps))
  {
    PartsThenText(ps, []);
    assert PartsText(ps) + [] == PartsText(ps) && PartsLeft(ps) + [] == PartsLeft(ps);
  }

  /** A comment up to the end of its line makes no difference, outside of strings and comments, whatever follows. */
  lemma LineIsDropped(ps: seq<Part>, c: seq<byte>, b: seq<byte>)
    requires 0 !in c && 10 !in c
    requires PartsOk(ps, [47, 47] + c + [10] + b) && PartsOk(ps, [10] + b)
    ensures Minified(PartsText(ps) + ([47, 47] + c + [10] + b), 0) == Minified(PartsText(ps) + ([10] + b), 0)
  {
    hide PartsOk, Minified;
    var f := [47, 47] + c + [10] + b;
    PartsThenText(ps, f);
    PartsThenText(ps, [10] + b);
    var t := [47, 47] + c;
    assert f == t + ([10] + b) && f[0..0 + |t|] == t;
    LineLeaves(f, 0, c);
    MinifiedShifts(t, [10] + b, 0);
  }

  /** Likewise a comment between slashes and stars. */
  lemma BlockIsDropped(ps: seq<Part>, c: seq<byte>, b: seq<byte>)
    requires PartOk(Block(c), b)
    requires PartsOk(ps, [47, 42] + c + [42, 47] + b) && PartsOk(ps, b)
    ensures Minified(PartsText(ps) + ([47, 42] + c + [42, 47] + b), 0) == Minified(PartsText(ps) + b, 0)
  {
    hide PartsOk, Minified;
    var t := [47, 42] + c + [42, 47];
    var f := t + b;
    PartsThenText(ps, f);
    PartsThenText(ps, b);
    assert f[0..0 + |t|] == t;
    BlockLeaves(f, 0, c);
    MinifiedShifts(t, b, 0);
  }

  // ---------- Every text ----------

  lemma {:induction false} StopIsBody(t: seq<byte>, p: nat)
    requires p <= |t| && At(t, StringStop(t, p)) != 0
    ensures var e := StringStop(t, p); p <= e < |t| && t[e] == 34 && BodyOk(t[p..e])
    decreases |t| - p
  {
    if At(t, p) != 34 && At(t, p) != 0 {
      var n := if At(t, p) == 92 then 2 else 1;
      StopIsBody(t, p + n);
      var e := StringStop(t, p);
      assert t[p..e][n..] == t[p + n..e];
    }
  }

  lemma {:induction false} LineIsComment(t: seq<byte>, p: nat)
    requires p <= |t| && NulFree(t)
    ensures var e := LineStop(t, p);
            (forall k :: p <= k < e ==> t[k] != 10) && (e == |t| || t[e] == 10)
    decreases |t| - p
  {
    if At(t, p) != 0 && At(t, p) != 10 {
      LineIsComment(t, p + 1);
    }
  }

  lemma {:induction false} CommentIsBlock(t: seq<byte>, p: nat)
    requires p <= |t| && At(t, CommentStop(t, p)) != 0
    ensures var e := CommentStop(t, p);
            && e + 2 <= |t| && t[e] == 42 && t[e + 1] == 47
            && forall k :: p <= k < e ==> !(t[k] == 42 && t[k + 1] == 47)
    decreases |t| - p
  {
    if At(t, p) != 0 && !(At(t, p) == 42 && At(t, p + 1) == 47) {
      CommentIsBlock(t, p + 1);
    }
  }

  lemma FirstLine(t: seq<byte>, i: nat) returns (p: Part)
    requires i < |t| && NulFree(t) && t[i] == 47 && At(t, i + 1) == 47
    ensures HasAt(t, i, PartText(p)) && PartOk(p, t[i + |PartText(p)|..]) && PartText(p) != []
  {
    hide LineStop;
    var e := LineStop(t, i + 1);
    LineIsComment(t, i + 1);
    assert e > i + 1 by { LineGoesOn(t, i + 1); }
    p := Line(t[i + 2..e]);
    assert t[i..e] == [47, 47] + t[i + 2..e];
    assert t[e..] != [] ==> t[e..][0] == t[e];
  }

  lemma LineGoesOn(t: seq<byte>, p: nat)
    requires p < |t| && t[p] != 0 && t[p] != 10
    ensures LineStop(t, p) > p
  {
  }

  lemma FirstQuoted(t: seq<byte>, i: nat) returns (p: Part)
    requires i < |t| && t[i] == 34 && At(t, StringStop(t, i + 1)) != 0
    ensures HasAt(t, i, PartText(p)) && PartOk(p, t[i + |PartText(p)|..]) && PartText(p) != []
  {
    hide StringStop;
    var e := StringStop(t, i + 1);
    StopIsBody(t, i + 1);
    p := Quoted(t[i + 1..e]);
    assert t[i..e + 1] == [34] + t[i + 1..e] + [34];
  }

  lemma FirstBlock(t: seq<byte>, i: nat) returns (p: Part)
    requires i < |t| && NulFree(t) && t[i] == 47 && At(t, i + 1) == 42 && At(t, CommentStop(t, i + 1)) != 0
    ensures HasAt(t, i, PartText(p)) && PartOk(p, t[i + |PartText(p)|..]) && PartText(p) != []
  {
    hide CommentStop;
    var e := CommentStop(t, i + 1);
    CommentIsBlock(t, i + 1);
    if e == i + 1 {
      p := Shut;
      assert t[i..i + 3] == [47, 42, 47];
    } else {
      var c := t[i + 2..e];
      p := Block(c);
      assert t[i..e + 2] == [47, 42] + c + [42, 47];
      forall k | 0 <= k < |c|
        ensures !(([42] + c)[k] == 42 && c[k] == 47)
      {
        assert ([42] + c)[k] == t[i + 1 + k] && c[k] == t[i + 2 + k];
      }
    }
  }

  /** The first part of a text that is not cut off. */
  lemma FirstPart(t: seq<byte>, i: nat) returns (p: Part)
    requires i < |t| && NulFree(t) && Minified(t, i).Left?
    ensures HasAt(t, i, PartText(p)) && PartOk(p, t[i + |PartText(p)|..]) && PartText(p) != []
  {
    hide StringStop, LineStop, CommentStop;
    var c := t[i];
    if IsBlank(c) {
      p := Blank(c);
    } else if c == 47 && At(t, i + 1) == 47 {
      p := FirstLine(t, i);
    } else if c == 47 && At(t, i + 1) == 42 {
      p := FirstBlock(t, i);
    } else if c == 34 {
      p := FirstQuoted(t, i);
    } else {
      p := Other(c);
      assert t[i + 1..] != [] ==> t[i + 1..][0] == t[i + 1];
    }
  }

  /** Every text that Minify does not read past is made of such parts. */
  lemma {:induction false} TextHasParts(t: seq<byte>, i: nat) returns (ps: seq<Part>)
    requires i <= |t| && NulFree(t) && Minified(t, i).Left?
    ensures PartsText(ps) == t[i..] && PartsOk(ps, [])
    decreases |t| - i
  {
    hide PartOk, PartText, Minified;
    ps := [];
    if i < |t| {
      var p := FirstPart(t, i);
      var e := i + |PartText(p)|;
      PartLeaves(t, i, p);
      var rest := TextHasParts(t, e);
      ps := [p] + rest;
      assert ps[0] == p && ps[1..] == rest;
      assert t[i..] == PartText(p) + t[e..];
      assert PartsText(rest) + [] == t[e..];
    }
  }
}
