/**
 Strings in memory: `parse_string` and `print_string_ptr`, each of which measures its result in a first
 pass and fills a buffer of that size in a second one; and what the escapes in a string mean.
 */
module JsonStrings {
  import opened Bytes
  import opened JsonText
  import opened JsonEscapes
  import opened Utf16

  /** The array holds the C string s and its terminating zero. */
  predicate CString(a: array<byte>, s: seq<byte>)
    reads a
  {
    NulFree(s) && |s| < a.Length && a[..|s|] == s && a[|s|] == 0
  }

  // ---------- What escapes mean ----------

  /** The code unit after a high surrogate, which the parser uses up, means nothing by itself. */
  predicate LosesNothing(ps: seq<Piece>) {
    if ps == [] then true
    else if ps[0].Unit? && IsHigh(ps[0].u) && |ps| > 1 && ps[1].Unit? then
      (IsLow(ps[1].u) || SecondIsEmpty(ps)) && LosesNothing(ps[2..])
    else LosesNothing(ps[1..])
  }

  predicate SecondIsEmpty(ps: seq<Piece>)
    requires |ps| > 1 && ps[1].Unit?
  {
    Alone(ps[1].u) == [] && !(IsHigh(ps[1].u) && |ps| > 2 && ps[2].Unit? && IsLow(ps[2].u))
  }

  /** Nothing the parser makes of the escapes is longer than what they mean. */
  lemma {:induction false} TranscodeNotLonger(ps: seq<Piece>)
    ensures |Transcode(ps)| <= |Meaning(ps)|
    decreases |ps|
  {
    hide Utf8, Join;
    if ps != [] {
      TranscodeNotLonger(ps[1..]);
      if ps[0].Unit? && IsHigh(ps[0].u) && |ps| > 1 && ps[1].Unit? {
        TranscodeNotLonger(ps[2..]);
        if !IsLow(ps[1].u) {
          UsedUp(ps);
        }
      }
    }
  }

  /** A high surrogate and another code unit that is no low one. */
  lemma UsedUp(ps: seq<Piece>)
    requires |ps| > 1 && ps[0].Unit? && IsHigh(ps[0].u) && ps[1].Unit? && !IsLow(ps[1].u)
    ensures |Meaning(ps)| >= |Meaning(ps[2..])|
    ensures |Meaning(ps)| == |Meaning(ps[2..])| <==> SecondIsEmpty(ps)
    ensures SecondIsEmpty(ps) ==> Meaning(ps) == Meaning(ps[2..])
    ensures Transcode(ps) == Transcode(ps[2..])
  {
    hide Join, Utf8;
    assert Meaning(ps) == Alone(ps[0].u) + Meaning(ps[1..]) == Meaning(ps[1..]);
    assert ps[1..][0] == ps[1] && ps[1..][1..] == ps[2..];
    if IsHigh(ps[1].u) && |ps| > 2 && ps[2].Unit? && IsLow(ps[2].u) {
      assert ps[1..][1] == ps[2] && ps[1..][2..] == ps[3..];
      JoinIsCodePoint(ps[1].u, ps[2].u);
      Utf8Length(Join(ps[1].u, ps[2].u));
      LowFirst(ps[2..]);
      assert ps[2..][1..] == ps[3..];
    }
  }

  /** A low surrogate in front means nothing. */
  lemma LowFirst(ps: seq<Piece>)
    requires ps != [] && ps[0].Unit? && IsLow(ps[0].u)
    ensures Meaning(ps) == Meaning(ps[1..])
  {
  }

  lemma Cancel(x: seq<byte>, a: seq<byte>, b: seq<byte>)
    ensures x + a == x + b <==> a == b
  {
    assert (x + a)[|x|..] == a && (x + b)[|x|..] == b;
  }

  /** The parser gives an escaped string its meaning exactly if no code unit that means something is used up. */
  lemma {:induction false} TranscodeIsMeaning(ps: seq<Piece>)
    ensures Transcode(ps) == Meaning(ps) <==> LosesNothing(ps)
    decreases |ps|
  {
    hide Utf8, Join, Alone;
    if ps == [] {
    } else if ps[0].Byte? {
      TranscodeIsMeaning(ps[1..]);
      Cancel([ps[0].b], Transcode(ps[1..]), Meaning(ps[1..]));
    } else if IsHigh(ps[0].u) && |ps| > 1 && ps[1].Unit? {
      TranscodeIsMeaning(ps[2..]);
      if IsLow(ps[1].u) {
        JoinIsCodePoint(ps[0].u, ps[1].u);
        Cancel(Utf8(Join(ps[0].u, ps[1].u)), Transcode(ps[2..]), Meaning(ps[2..]));
      } else {
        UsedUp(ps);
        TranscodeNotLonger(ps[2..]);
      }
    } else {
      TranscodeIsMeaning(ps[1..]);
      Cancel(Alone(ps[0].u), Transcode(ps[1..]), Meaning(ps[1..]));
    }
  }

  /** For instance \uD800\u0041 is read as the empty string, though it means "A". */
  lemma UsedUpExample()
    ensures var ps := [Unit(0xD800), Unit(0x41)];
            Transcode(ps) == [] && Meaning(ps) == [0x41] && !LosesNothing(ps)
  {
    var ps := [Unit(0xD800), Unit(0x41)];
    assert ps[1..] == [Unit(0x41)] && ps[2..] == [];
    TranscodeIsMeaning(ps);
    assert Alone(0x41) == [0x41];
    assert Meaning(ps[1..]) == [0x41] + Meaning([]);
    assert Meaning(ps) == [] + Meaning(ps[1..]);
  }

  /** How many bytes the UTF-8 form with this first byte has. */
  function Utf8Width(first: byte): nat {
    if first < 0xC0 then 1 else if first < 0xE0 then 2 else if first < 0xF0 then 3 else 4
  }

  function Six(b: byte): nat {
    b % 64
  }

  function Lead(b: byte, m: nat): nat
    requires m > 0
  {
    b % m
  }

  /** Reads one code point in UTF-8 form. */
  function FromUtf8(s: seq<byte>): nat
    requires s != [] && |s| >= Utf8Width(s[0])
  {
    match Utf8Width(s[0])
    case 1 => s[0]
    case 2 => Lead(s[0], 32) * 64 + Six(s[1])
    case 3 => Lead(s[0], 16) * 4096 + Six(s[1]) * 64 + Six(s[2])
    case _ => Lead(s[0], 8) * 262144 + Six(s[1]) * 4096 + Six(s[2]) * 64 + Six(s[3])
  }

  lemma Sixes(c: nat)
    ensures c == c / 64 * 64 + c % 64
    ensures c == c / 4096 * 4096 + c / 64 % 64 * 64 + c % 64
    ensures c == c / 262144 * 262144 + c / 4096 % 64 * 4096 + c / 64 % 64 * 64 + c % 64
  {
    assert c / 64 / 64 == c / 4096 && c / 4096 / 64 == c / 262144;
  }

  lemma SixOf(x: nat)
    ensures Six(0x80 + x % 64) == x % 64
  {
  }

  /** The UTF-8 form can be read back whatever follows it, and only its first byte is not 0x80 to 0xBF. */
  lemma Utf8RoundTrip(c: nat, rest: seq<byte>)
    requires c < 0x110000
    ensures |Utf8(c)| == Utf8Width(Utf8(c)[0]) && FromUtf8(Utf8(c) + rest) == c
    ensures forall k :: 0 < k < |Utf8(c)| ==> 0x80 <= Utf8(c)[k] <= 0xBF
    ensures !(0x80 <= Utf8(c)[0] <= 0xBF)
  {
    hide Six, Lead;
    Sixes(c);
    SixOf(c);
    SixOf(c / 64);
    SixOf(c / 4096);
    LeadOf(c);
    var u := Utf8(c);
    assert (u + rest)[0] == u[0];
    if |u| > 1 {
      assert (u + rest)[1] == u[1];
    }
    if |u| > 2 {
      assert (u + rest)[2] == u[2];
    }
    if |u| > 3 {
      assert (u + rest)[3] == u[3];
    }
  }

  lemma LeadOf(c: nat)
    ensures 0x80 <= c < 0x800 ==> Lead(0xC0 + c / 64, 32) == c / 64
    ensures 0x800 <= c < 0x10000 ==> Lead(0xE0 + c / 4096, 16) == c / 4096
    ensures 0x10000 <= c < 0x110000 ==> Lead(0xF0 + c / 262144, 8) == c / 262144
  {
  }

  // ---------- parse_string ----------

  /** The first pass (cJSON.c:160). */
  method Measure(t: seq<byte>, start: nat) returns (len: nat)
    requires start <= |t| && StringStop(t, start) <= |t|
    ensures len == Count(t, start)
  {
    var ptr := start;
    len := 0;
    while At(t, ptr) != QUOTE && At(t, ptr) != 0
      invariant start <= ptr <= |t| && StringStop(t, ptr) == StringStop(t, start)
      invariant len + Count(t, ptr) == Count(t, start)
      decreases |t| - ptr
    {
      len := len + 1;
      ptr := ptr + if At(t, ptr) == BACKSLASH then 2 else 1;
    }
  }

  /** The bits that mark the first byte of so many (cJSON.c:154). */
  function FirstByteMark(len: nat): byte {
    if len == 2 then 0xC0 else if len == 3 then 0xE0 else if len == 4 then 0xF0 else 0
  }

  /** Writes the last six bits in front of n as a continuation byte, and takes them off the code point. */
  method PutSix(out: array<byte>, n: nat, code: nat) returns (m: nat, uc: nat)
    requires 0 < n <= out.Length
    modifies out
    ensures m == n - 1 && uc == code / 64 && out[m] == 0x80 + code % 64
    ensures forall k :: 0 <= k < out.Length && k != m ==> out[k] == old(out[k])
  {
    m, uc := n - 1, code / 64;
    out[m] := 0x80 + code % 64;
  }

  /** The bytes of a code point as they are found from the last one backwards. */
  lemma Utf8Shapes(c: nat)
    requires c < 0x110000
    ensures c < 0x80 ==> Utf8(c) == [c]
    ensures 0x80 <= c < 0x800 ==> Utf8(c) == [c / 64 + 0xC0, 0x80 + c % 64]
    ensures 0x800 <= c < 0x10000 ==> Utf8(c) == [c / 64 / 64 + 0xE0, 0x80 + c / 64 % 64, 0x80 + c % 64]
    ensures 0x10000 <= c ==>
              Utf8(c) == [c / 64 / 64 / 64 + 0xF0, 0x80 + c / 64 / 64 % 64, 0x80 + c / 64 % 64, 0x80 + c % 64]
  {
    assert c / 64 / 64 == c / 4096 && c / 64 / 64 / 64 == c / 262144;
  }

  /**
   Writes the bytes of a code point from the last one backwards (cJSON.c:192-200).  The bits that the code sets with
   bitwise or are not set before, so they are added here.
   */
  method PutUtf8(out: array<byte>, n: nat, code: nat) returns (m: nat)
    requires code < 0x110000 && n + |Utf8(code)| <= out.Length
    modifies out
    ensures m == n + |Utf8(code)| && out[n..m] == Utf8(code)
    ensures forall k :: 0 <= k < out.Length && !(n <= k < m) ==> out[k] == old(out[k])
  {
    hide Utf8;
    Utf8Shapes(code);
    var uc := code;
    var len := if uc < 0x80 then 1 else if uc < 0x800 then 2 else if uc < 0x10000 then 3 else 4;
    m := n + len;
    if len == 4 {
      m, uc := PutSix(out, m, uc);
    }
    if len >= 3 {
      m, uc := PutSix(out, m, uc);
    }
    if len >= 2 {
      m, uc := PutSix(out, m, uc);
    }
    m := m - 1;
    out[m] := uc + FirstByteMark(len);
    assert forall k :: 0 <= k < len ==> out[n + k] == Utf8(code)[k];
    m := m + len;
  }

  /** A string's text from p on, all of which the parser can read. */
  predicate Readable(t: seq<byte>, p: nat) {
    p <= |t| && Pieces(t, p).Ok?
  }

  function Rest(t: seq<byte>, p: nat): seq<byte>
    requires Readable(t, p)
  {
    Transcode(Pieces(t, p).value)
  }

  /** From p to q the bytes f are read, and the string ends where it did. */
  predicate Reads(t: seq<byte>, p: nat, q: nat, f: seq<byte>) {
    && Readable(t, p) && Readable(t, q) && p < q
    && Pieces(t, q).end == Pieces(t, p).end
    && Rest(t, p) == f + Rest(t, q)
  }

  lemma PlainReads(t: seq<byte>, p: nat)
    requires Readable(t, p) && At(t, p) != QUOTE && At(t, p) != 0 && At(t, p) != BACKSLASH
    ensures p < |t| && Reads(t, p, p + 1, [t[p]])
  {
    hide Utf8, Join;
    var ps := Pieces(t, p).value;
    assert ps[1..] == Pieces(t, p + 1).value;
  }

  lemma SimpleReads(t: seq<byte>, p: nat)
    requires Readable(t, p) && At(t, p) == BACKSLASH && At(t, p + 1) != LETTER_U
    ensures p + 1 < |t| && Reads(t, p, p + 2, [Unescaped(t[p + 1])])
  {
    hide Utf8, Join, Unescaped;
    var ps := Pieces(t, p).value;
    assert ps[1..] == Pieces(t, p + 2).value;
  }

  lemma UnitPiece(t: seq<byte>, p: nat)
    requires Readable(t, p) && UnitAt(t, p)
    ensures Readable(t, p + 6)
    ensures Pieces(t, p) == Before(Unit(UnitValue(t, p + 2)), Pieces(t, p + 6))
  {
  }

  lemma NoUnitPiece(t: seq<byte>, p: nat)
    requires Readable(t, p) && !UnitAt(t, p)
    ensures Pieces(t, p).value == [] || Pieces(t, p).value[0].Byte?
  {
  }

  lemma UnitReads(t: seq<byte>, p: nat)
    requires Readable(t, p) && UnitAt(t, p)
    requires IsHigh(UnitValue(t, p + 2)) ==> Readable(t, p + 6) && !UnitAt(t, p + 6)
    ensures Reads(t, p, p + 6, Alone(UnitValue(t, p + 2)))
  {
    hide Utf8, Join, UnitValue, Alone, Pieces, UnitAt;
    UnitPiece(t, p);
    var ps := Pieces(t, p).value;
    assert ps[1..] == Pieces(t, p + 6).value;
    if IsHigh(UnitValue(t, p + 2)) {
      NoUnitPiece(t, p + 6);
    }
  }

  lemma PairReads(t: seq<byte>, p: nat)
    requires Readable(t, p) && UnitAt(t, p) && IsHigh(UnitValue(t, p + 2)) && UnitAt(t, p + 6)
    ensures var u, u2 := UnitValue(t, p + 2), UnitValue(t, p + 8);
            && Join(u, u2) < 0x110000
            && Reads(t, p, p + 12, if IsLow(u2) then Utf8(Join(u, u2)) else [])
  {
    hide Utf8, Join, UnitValue, Alone, Pieces, UnitAt;
    UnitPiece(t, p);
    UnitPiece(t, p + 6);
    JoinIsCodePoint(UnitValue(t, p + 2), UnitValue(t, p + 8));
    var ps := Pieces(t, p).value;
    assert ps[1..] == Pieces(t, p + 6).value;
    assert ps[2..] == Pieces(t, p + 12).value;
  }

  /** Bytes f have been written at n; nothing else has changed. */
  twostate predicate Wrote(out: array<byte>, n: nat, f: seq<byte>)
    reads out
  {
    && n + |f| <= out.Length && out[n..n + |f|] == f
    && forall k :: 0 <= k < out.Length && !(n <= k < n + |f|) ==> out[k] == old(out[k])
  }

  /** One escape with a code unit, from its backslash on (cJSON.c:179-201). */
  method TakeUnit(t: seq<byte>, p: nat, out: array<byte>, n: nat) returns (q: nat, m: nat, ghost f: seq<byte>)
    requires Readable(t, p) && UnitAt(t, p) && n + |Rest(t, p)| <= out.Length
    modifies out
    ensures Reads(t, p, q, f) && m == n + |f| && Wrote(out, n, f)
  {
    hide Utf8, Join, UnitValue, Pieces, UnitAt, Transcode, Readable;
    UnitPiece(t, p);
    var uc := UnitValue(t, p + 2);
    q, m, f := p + 6, n, [];
    if IsLow(uc) || uc == 0 {
      UnitReads(t, p);
      return;
    }
    if IsHigh(uc) {
      if !UnitAt(t, p + 6) {
        UnitReads(t, p);
        return;
      }
      PairReads(t, p);
      var uc2 := UnitValue(t, p + 8);
      q := p + 12;
      if !IsLow(uc2) {
        return;
      }
      uc := Join(uc, uc2);
    } else {
      UnitReads(t, p);
    }
    f := Utf8(uc);
    m := PutUtf8(out, n, uc);
  }

  /** One character or one escape (cJSON.c:168-205). */
  method TakeOne(t: seq<byte>, p: nat, out: array<byte>, n: nat) returns (q: nat, m: nat, ghost f: seq<byte>)
    requires Readable(t, p) && At(t, p) != QUOTE && At(t, p) != 0 && n + |Rest(t, p)| <= out.Length
    modifies out
    ensures Reads(t, p, q, f) && m == n + |f| && Wrote(out, n, f)
  {
    hide Transcode, Pieces, Readable, Unescaped;
    if At(t, p) != BACKSLASH {
      PlainReads(t, p);
      f := [t[p]];
      out[n] := t[p];
      q, m := p + 1, n + 1;
    } else if At(t, p + 1) == LETTER_U {
      q, m, f := TakeUnit(t, p, out, n);
    } else {
      SimpleReads(t, p);
      f := [Unescaped(t[p + 1])];
      out[n] := Unescaped(t[p + 1]);
      q, m := p + 2, n + 1;
    }
  }

  /** The second pass. */
  method Fill(t: seq<byte>, start: nat, out: array<byte>) returns (n: nat, ptr: nat)
    requires Readable(t, start) && |Rest(t, start)| < out.Length
    modifies out
    ensures n == |Rest(t, start)| && out[..n] == Rest(t, start) && out[n] == 0
    ensures Readable(t, ptr) && Rest(t, ptr) == [] && (At(t, ptr) == QUOTE || At(t, ptr) == 0)
    ensures Pieces(t, ptr).end == Pieces(t, start).end
  {
    hide Transcode, Pieces;
    ghost var all := Rest(t, start);
    ptr, n := start, 0;
    while At(t, ptr) != QUOTE && At(t, ptr) != 0
      invariant Readable(t, ptr) && Pieces(t, ptr).end == Pieces(t, start).end
      invariant n <= |all| && all == out[..n] + Rest(t, ptr)
      decreases |t| - ptr
    {
      ghost var done := out[..n];
      ghost var f;
      ptr, n, f := TakeOne(t, ptr, out, n);
      assert out[..n] == done + f;
    }
    AtEnd(t, ptr);
    out[n] := 0;
    assert out[..n] == all;
  }

  /**
   Both passes of `parse_string`: the buffer is as large as the first pass has counted, that is large
   enough, and what is in it is what the escapes are read as.
   */
  method ParseStringInto(t: seq<byte>, i: nat) returns (ok: bool, out: array<byte>, end: nat)
    requires i <= |t| && !ParseString(t, i).Ragged?
    ensures fresh(out)
    ensures ok <==> ParseString(t, i).Ok?
    ensures ok ==> ParseString(t, i).end == end && CString(out, ParseString(t, i).value)
    ensures ok ==> out.Length == Count(t, i + 1) + 1
    ensures !ok ==> ParseString(t, i) == Fail(end)
  {
    hide Transcode, Pieces;
    if At(t, i) != QUOTE {
      out := new byte[0];
      return false, out, i;
    }
    var len := Measure(t, i + 1);
    ReadIsNulFree(t, i + 1);
    out := new byte[len + 1];
    var n, ptr := Fill(t, i + 1, out);
    AtEnd(t, ptr);
    assert Pieces(t, ptr).end == ptr;
    ok, end := true, if At(t, ptr) == QUOTE then ptr + 1 else ptr;
  }

  lemma AtEnd(t: seq<byte>, p: nat)
    requires Readable(t, p) && (At(t, p) == QUOTE || At(t, p) == 0)
    ensures Rest(t, p) == [] && Pieces(t, p).end == p
  {
  }

  lemma {:induction false} ReadIsNulFree(t: seq<byte>, p: nat)
    requires Readable(t, p)
    ensures NulFree(Rest(t, p))
    decreases |t| - p
  {
    hide Utf8, Join, UnitValue, Transcode, Pieces;
    if At(t, p) == QUOTE || At(t, p) == 0 {
      AtEnd(t, p);
    } else if At(t, p) != BACKSLASH {
      PlainReads(t, p);
      ReadIsNulFree(t, p + 1);
    } else if At(t, p + 1) != LETTER_U {
      SimpleReads(t, p);
      SimpleIsNotZero(t, p);
      ReadIsNulFree(t, p + 2);
    } else {
      UnitPiece(t, p);
      if IsHigh(UnitValue(t, p + 2)) && UnitAt(t, p + 6) {
        PairReads(t, p);
        JoinIsCodePoint(UnitValue(t, p + 2), UnitValue(t, p + 8));
        Utf8NulFree(Join(UnitValue(t, p + 2), UnitValue(t, p + 8)));
        ReadIsNulFree(t, p + 12);
      } else {
        UnitReads(t, p);
        if 0 < UnitValue(t, p + 2) {
          Utf8NulFree(UnitValue(t, p + 2));
        }
        ReadIsNulFree(t, p + 6);
      }
    }
  }

  lemma SimpleIsNotZero(t: seq<byte>, p: nat)
    requires Readable(t, p) && At(t, p) == BACKSLASH
    ensures Unescaped(At(t, p + 1)) != 0
  {
  }

  lemma Utf8NulFree(c: nat)
    requires 0 < c < 0x110000
    ensures NulFree(Utf8(c))
  {
  }

  // ---------- print_string_ptr ----------

  lemma {:induction false} EscapeMore(s: seq<byte>, c: byte)
    ensures Escape(s + [c]) == Escape(s) + EscapeByte(c)
    decreases |s|
  {
    hide EscapeByte;
    if s == [] {
      assert s + [c] == [c] && [c][1..] == [];
    } else {
      assert (s + [c])[1..] == s[1..] + [c];
      EscapeMore(s[1..], c);
    }
  }

  lemma EscapeStep(s: seq<byte>, k: nat)
    requires k < |s|
    ensures Escape(s[..k + 1]) == Escape(s[..k]) + EscapeByte(s[k])
  {
    EscapeMore(s[..k], s[k]);
    assert s[..k + 1] == s[..k] + [s[k]];
  }

  lemma {:induction false} EscapePrefix(s: seq<byte>, k: nat)
    requires k <= |s|
    ensures |Escape(s[..k])| <= |Escape(s)|
    decreases |s| - k
  {
    if k < |s| {
      EscapeStep(s, k);
      EscapePrefix(s, k + 1);
    } else {
      assert s[..k] == s;
    }
  }

  /** A byte with an escape of two characters. */
  predicate HasShortEscape(c: byte) {
    c == QUOTE || c == BACKSLASH || c == 8 || c == 12 || c == 10 || c == 13 || c == 9
  }

  /** The first pass (cJSON.c:220). */
  method MeasureEscaped(s: seq<byte>) returns (len: nat)
    requires NulFree(s)
    ensures len == |Escape(s)|
  {
    hide Escape;
    len := 0;
    assert Escape(s[..0]) == [] by { EscapeNothing(); assert s[..0] == []; }
    for ptr := 0 to |s|
      invariant len == |Escape(s[..ptr])|
    {
      EscapeStep(s, ptr);
      len := len + 1;
      if HasShortEscape(s[ptr]) {
        len := len + 1;
      } else if s[ptr] < 32 {
        len := len + 5;
      }
    }
    assert s[..|s|] == s;
  }

  lemma EscapeNothing()
    ensures Escape([]) == []
  {
  }

  /** One byte of the second pass (cJSON.c:229-244). */
  method PutEscaped(out: array<byte>, n: nat, c: byte) returns (m: nat)
    requires c != 0 && n + |EscapeByte(c)| + 1 < out.Length
    modifies out
    ensures m == n + |EscapeByte(c)| && out[..m] == old(out[..n]) + EscapeByte(c)
  {
    m := n;
    if c > 31 && c != QUOTE && c != BACKSLASH {
      out[m] := c;
      m := m + 1;
    } else {
      out[m] := BACKSLASH;
      m := m + 1;
      if c == BACKSLASH { out[m] := BACKSLASH; m := m + 1; }
      else if c == QUOTE { out[m] := QUOTE; m := m + 1; }
      else if c == 8 { out[m] := 98; m := m + 1; }
      else if c == 12 { out[m] := 102; m := m + 1; }
      else if c == 10 { out[m] := 110; m := m + 1; }
      else if c == 13 { out[m] := 114; m := m + 1; }
      else if c == 9 { out[m] := 116; m := m + 1; }
      else {
        // sprintf(ptr2, "u%04x", token)
        out[m], out[m + 1], out[m + 2] := LETTER_U, ZERO, ZERO;
        out[m + 3], out[m + 4], out[m + 5] := HexDigit(c / 16), HexDigit(c % 16), 0;
        m := m + 5;
      }
    }
  }

  /** The buffer is filled exactly: with the quoted string and the terminating zero. */
  method PrintStringPtr(s: seq<byte>) returns (out: array<byte>)
    requires NulFree(s)
    ensures fresh(out) && out[..] == PrintString(s) + [0]
  {
    hide Escape, EscapeByte;
    var len := MeasureEscaped(s);
    out := new byte[len + 3];
    out[0] := QUOTE;
    var n := 1;
    assert Escape(s[..0]) == [] by { EscapeNothing(); assert s[..0] == []; }
    for ptr := 0 to |s|
      invariant n == 1 + |Escape(s[..ptr])| && n + 2 <= out.Length
      invariant out[..n] == [QUOTE] + Escape(s[..ptr])
    {
      EscapeStep(s, ptr);
      EscapePrefix(s, ptr + 1);
      n := PutEscaped(out, n, s[ptr]);
    }
    assert s[..|s|] == s;
    out[n], out[n + 1] := QUOTE, 0;
    assert out[..] == out[..n] + [QUOTE, 0];
  }
}
