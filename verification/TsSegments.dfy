/**
 Cutting a text into characters, as `char_type` does: by the lead byte, if as many continuation bytes
 follow as it asks for, and otherwise byte by byte.
 */
module TsSegments {
  import opened Bytes

  const CHAR_TYPE_APB := 0x01
  const CHAR_TYPE_NUM := 0x02
  const CHAR_TYPE_PCT := 0x04
  const CHAR_TYPE_CNC := 0x08
  const CHAR_TYPE_ERR := 0x10

  /** How many bytes a character has, and its type. */
  datatype Segment = Segment(len: nat, kind: nat)

  /** A byte that can only go on a character: its two highest bits are 10. */
  predicate IsContinuation(c: byte) {
    c / 64 == 2
  }

  // ---------- What a character is ----------

  /** How many bytes the lead byte asks for; continuation bytes and bytes no lead byte has stand alone. */
  function Wanted(c: byte): (r: nat)
    ensures 1 <= r <= 6
  {
    if c < 0xC0 then 1
    else if c < 0xE0 then 2
    else if c < 0xF0 then 3
    else if c < 0xF8 then 4
    else if c < 0xFC then 5
    else if c < 0xFE then 6
    else 1
  }

  /** The continuation bytes at the start of a text. */
  function Run(s: seq<byte>): (r: seq<byte>)
    ensures r <= s
    ensures forall k :: 0 <= k < |r| ==> IsContinuation(r[k])
    ensures |r| < |s| ==> !IsContinuation(s[|r|])
  {
    if s != [] && IsContinuation(s[0]) then [s[0]] + Run(s[1..]) else []
  }

  function AsciiKind(c: byte): nat {
    if 97 <= c <= 122 || 65 <= c <= 90 then CHAR_TYPE_APB
    else if 48 <= c <= 57 || c == 46 || c == 37 || c == 45 || c == 126 then CHAR_TYPE_NUM
    else if c <= 26 || c == 87 then CHAR_TYPE_ERR
    else CHAR_TYPE_PCT
  }

  /** The code points taken to be Chinese; for four bytes, with the multiplier the code has. */
  predicate IsChinese(s: seq<byte>)
    requires |s| >= Wanted(if s == [] then 0 else s[0]) && s != []
  {
    if Wanted(s[0]) == 3 then
      var u := 4096 * (s[0] as int % 16) + 64 * (s[1] as int % 64) + s[2] as int % 64;
      13312 <= u <= 19893 || 19968 <= u <= 40907
    else if Wanted(s[0]) == 4 then
      var u := 32768 * (s[0] as int % 8) + 4096 * (s[1] as int % 64) + 64 * (s[2] as int % 64) + s[3] as int % 64;
      131072 <= u <= 173782
    else false
  }

  /** The first character of a text. */
  function First(s: seq<byte>): (r: Segment)
    requires s != []
    ensures 1 <= r.len <= |s|
  {
    var w := Wanted(s[0]);
    if |Run(s[1..])| < w - 1 then Segment(1, CHAR_TYPE_ERR)
    else if s[0] < 0x80 then Segment(1, AsciiKind(s[0]))
    else Segment(w, if IsChinese(s) then CHAR_TYPE_CNC else CHAR_TYPE_ERR)
  }

  // ---------- char_type ----------

  /** As many of the bytes after the first are continuation bytes. */
  lemma RunAtLeast(s: seq<byte>, n: nat)
    ensures |Run(s)| >= n <==> (n <= |s| && forall k :: 0 <= k < n ==> IsContinuation(s[k]))
    decreases n
  {
    if n > 0 && s != [] {
      RunAtLeast(s[1..], n - 1);
      if n <= |s| && forall k :: 0 <= k < n ==> IsContinuation(s[k]) {
        assert forall k :: 0 <= k < n - 1 ==> s[1..][k] == s[k + 1];
      }
    }
  }

  /** Whether n continuation bytes follow the lead byte. */
  predicate Follow(s: seq<byte>, n: nat)
    requires n < |s|
  {
    forall k :: 1 <= k <= n ==> IsContinuation(s[k])
  }

  lemma FollowIsRun(s: seq<byte>, n: nat)
    requires s != []
    ensures |Run(s[1..])| >= n <==> (n < |s| && Follow(s, n))
  {
    RunAtLeast(s[1..], n);
    if n < |s| {
      assert forall k :: 0 <= k < n ==> s[1..][k] == s[k + 1];
      if Follow(s, n) {
        forall k | 0 <= k < n
          ensures IsContinuation(s[1..][k])
        {
          assert IsContinuation(s[k + 1]);
        }
      }
    }
  }

  /** char_type, branch by branch (ts_chinese_translate.c:15-108); s is what is left of the text. */
  method CharType(s: seq<byte>) returns (charLen: nat, kind: nat)
    ensures s == [] ==> charLen == 0 && kind == CHAR_TYPE_ERR
    ensures s != [] ==> Segment(charLen, kind) == First(s)
  {
    hide Run;
    var len := |s|;
    if len < 1 {
      return 0, CHAR_TYPE_ERR;
    }
    var c := s[0];
    FollowIsRun(s, Wanted(c) - 1);
    if c < 0x80 {
      charLen := 1;
      if (97 <= c <= 122) || (65 <= c <= 90) {
        kind := CHAR_TYPE_APB;
      } else if (48 <= c <= 57) || c == 46 || c == 37 || c == 45 || c == 126 {
        kind := CHAR_TYPE_NUM;
      } else if c <= 26 || c == 87 {
        kind := CHAR_TYPE_ERR;
      } else {
        kind := CHAR_TYPE_PCT;
      }
    } else if c / 16 == 14 {
      if len < 3 {
        charLen, kind := 1, CHAR_TYPE_ERR;
      } else if !IsContinuation(s[1]) || !IsContinuation(s[2]) {
        charLen, kind := 1, CHAR_TYPE_ERR;
      } else {
        var unicode := 4096 * (c as int % 16);
        unicode := unicode + 64 * (s[1] as int % 64);
        unicode := unicode + s[2] as int % 64;
        charLen := 3;
        kind := if 13312 <= unicode <= 19893 || 19968 <= unicode <= 40907 then CHAR_TYPE_CNC else CHAR_TYPE_ERR;
      }
    } else if c / 8 == 30 {
      if len < 4 {
        charLen, kind := 1, CHAR_TYPE_ERR;
      } else if !IsContinuation(s[1]) || !IsContinuation(s[2]) || !IsContinuation(s[3]) {
        charLen, kind := 1, CHAR_TYPE_ERR;
      } else {
        var unicode := 32768 * (c as int % 8);
        unicode := unicode + 4096 * (s[1] as int % 64);
        unicode := unicode + 64 * (s[2] as int % 64);
        unicode := unicode + s[3] as int % 64;
        charLen := 4;
        kind := if 131072 <= unicode <= 173782 then CHAR_TYPE_CNC else CHAR_TYPE_ERR;
      }
    } else {
      kind := CHAR_TYPE_ERR;
      if c / 64 == 2 {
        charLen := 1;
      } else if c / 32 == 6 {
        charLen := if len < 2 then 1 else if IsContinuation(s[1]) then 2 else 1;
      } else if c / 4 == 62 {
        charLen := if len < 5 then 1
                   else if IsContinuation(s[1]) && IsContinuation(s[2]) && IsContinuation(s[3]) && IsContinuation(s[4]) then 5
                   else 1;
      } else if c / 2 == 126 {
        charLen := if len < 6 then 1
                   else if IsContinuation(s[1]) && IsContinuation(s[2]) && IsContinuation(s[3]) && IsContinuation(s[4])
                           && IsContinuation(s[5]) then 6
                   else 1;
      } else {
        charLen := 1;
      }
    }
  }

  // ---------- Characters and what follows them ----------

  /** The characters of a text. */
  function Segments(s: seq<byte>): seq<seq<byte>> {
    if s == [] then [] else [s[..First(s).len]] + Segments(s[First(s).len..])
  }

  function Flat(ws: seq<seq<byte>>): seq<byte> {
    if ws == [] then [] else ws[0] + Flat(ws[1..])
  }

  /** A word that is a Chinese character all by itself. */
  predicate IsCharacter(w: seq<byte>) {
    w != [] && First(w) == Segment(|w|, CHAR_TYPE_CNC)
  }

  lemma {:induction false} RunPlus(a: seq<byte>, b: seq<byte>)
    requires forall k :: 0 <= k < |a| ==> IsContinuation(a[k])
    ensures Run(a + b) == a + Run(b)
    decreases |a|
  {
    if a == [] {
      assert a + b == b;
    } else {
      assert (a + b)[1..] == a[1..] + b;
      RunPlus(a[1..], b);
    }
  }

  /** The first character depends on its first byte and the continuation bytes that follow it only. */
  lemma FirstDepends(u: seq<byte>, v: seq<byte>)
    requires u != [] && v != [] && u[0] == v[0] && Run(u[1..]) == Run(v[1..])
    ensures First(u) == First(v) && u[..First(u).len] == v[..First(v).len]
  {
    var w := Wanted(u[0]);
    var r := Run(u[1..]);
    if |r| >= w - 1 {
      assert forall k :: 1 <= k < w ==> u[k] == u[1..][k - 1] == r[k - 1];
      assert forall k :: 1 <= k < w ==> v[k] == v[1..][k - 1] == r[k - 1];
      assert u[..w] == v[..w];
    }
  }

  /** The bytes of a character after its first one are continuation bytes. */
  lemma CharacterTail(s: seq<byte>)
    requires s != []
    ensures forall k :: 1 <= k < First(s).len ==> IsContinuation(s[k])
  {
    var r := Run(s[1..]);
    assert forall k :: 1 <= k <= |r| ==> s[k] == s[1..][k - 1] == r[k - 1];
  }

  /** A stray continuation byte is a character of its own, and not Chinese. */
  lemma StrayByte(s: seq<byte>)
    requires s != [] && IsContinuation(s[0])
    ensures First(s).len == 1 && First(s).kind != CHAR_TYPE_CNC
  {
  }

  /** A complete character does not depend on what follows it. */
  lemma FirstExtends(w: seq<byte>, s: seq<byte>)
    requires w != [] && w <= s && |Run(w[1..])| >= Wanted(w[0]) - 1 && |Run(s[1..])| >= Wanted(w[0]) - 1
    ensures First(s) == First(w)
  {
    assert s[0] == w[0];
    assert forall k :: 0 <= k < |w| ==> s[k] == w[k];
  }

  /** A Chinese character stays one whatever follows it, and starts with no continuation byte. */
  lemma CharacterAlone(w: seq<byte>, rest: seq<byte>)
    requires IsCharacter(w)
    ensures First(w + rest) == First(w) && (w + rest)[..|w|] == w && (w + rest)[|w|..] == rest
    ensures !IsContinuation(w[0])
  {
    hide IsChinese, Run;
    var tail := w[1..];
    assert forall k :: 0 <= k < |tail| ==> tail[k] == w[k + 1];
    CharacterTail(w);
    RunPlus(tail, rest);
    RunPlus(tail, []);
    assert tail + [] == tail && (w + rest)[1..] == tail + rest;
    NoBytes();
    if IsContinuation(w[0]) {
      StrayByte(w);
    }
    FirstExtends(w, w + rest);
  }

  lemma NoBytes()
    ensures Run([]) == []
  {
  }

  /** The first character of a text, if it is Chinese, is one all by itself. */
  lemma FirstAlone(s: seq<byte>)
    requires s != [] && First(s).kind == CHAR_TYPE_CNC
    ensures IsCharacter(s[..First(s).len])
  {
    var n := First(s).len;
    var w := s[..n];
    CharacterTail(s);
    assert forall k :: 0 <= k < n ==> w[k] == s[k];
    var tail := w[1..];
    assert forall k :: 0 <= k < |tail| ==> tail[k] == s[k + 1];
    RunPlus(tail, []);
    assert tail + [] == tail;
  }

  lemma {:induction false} SegmentsJoin(s: seq<byte>)
    ensures Flat(Segments(s)) == s
    decreases |s|
  {
    if s != [] {
      var n := First(s).len;
      SegmentsJoin(s[n..]);
      assert Segments(s)[1..] == Segments(s[n..]);
      assert s == s[..n] + s[n..];
    }
  }
}
