/**
 What the characters of a text are, by code points and bytes, and what translating makes of them: a Chinese character is
 replaced by what its first dictionary entry says, and everything else is copied.
 */
module TsCodePoints {
  import opened Bytes
  import opened TsSegments
  import opened TsTable
  import opened TsTranslate

  // ---------- What char_type says ----------

  /** Letters; digits, points, percent signs, dashes and tildes; most control characters; other signs. */
  lemma AsciiMeans(c: byte, rest: seq<byte>)
    requires c < 128
    ensures First([c] + rest) ==
            Segment(1, if 65 <= c <= 90 || 97 <= c <= 122 then 1
                       else if 48 <= c <= 57 || c in [37, 45, 46, 126] then 2
                       else if c <= 26 then 16
                       else 4)
  {
  }

  predicate Tail(s: seq<byte>) {
    forall k :: 0 <= k < |s| ==> 128 <= s[k] <= 191
  }

  lemma {:induction false} TailRuns(s: seq<byte>, rest: seq<byte>)
    requires Tail(s)
    ensures |Run(s + rest)| >= |s|
    decreases |s|
  {
    RunPlus(s, rest);
  }

  /** The bytes of a code point below 10000 (hexadecimal) that takes three. */
  function Three(u: nat): seq<byte>
    requires u < 65536
  {
    [224 + u / 4096, 128 + u / 64 % 64, 128 + u % 64]
  }

  predicate IsHan(u: nat) {
    0x3400 <= u <= 0x4DB5 || 0x4E00 <= u <= 0x9FCB
  }

  /** Three bytes are one character; Chinese are the code points 3400 to 4DB5 and 4E00 to 9FCB. */
  lemma ThreeMeans(u: nat, rest: seq<byte>)
    requires u < 65536
    ensures First(Three(u) + rest) == Segment(3, if IsHan(u) then 8 else 16)
  {
    var s := Three(u) + rest;
    ThreeParts(u);
    assert s[0] == 224 + u / 4096 && s[1] == 128 + u / 64 % 64 && s[2] == 128 + u % 64;
    assert s[1..] == [s[1], s[2]] + rest;
    TailRuns([s[1], s[2]], rest);
    assert Wanted(s[0]) == 3;
  }

  lemma ThreeParts(u: nat)
    requires u < 65536
    ensures var a: byte, b: byte, c: byte := 224 + u / 4096, 128 + u / 64 % 64, 128 + u % 64;
            4096 * (a as int % 16) + 64 * (b as int % 64) + c as int % 64 == u
  {
    LowBits(u / 64 % 64);
    LowBits(u % 64);
    Sixes(u);
    assert (224 + u / 4096) % 16 == u / 4096;
  }

  lemma LowBits(x: nat)
    requires x < 64
    ensures (128 + x) % 64 == x
  {
  }

  /** A number in parts of six bits. */
  lemma Sixes(u: nat)
    ensures u == 4096 * (u / 4096) + 64 * (u / 64 % 64) + u % 64
  {
    var x := u / 64;
    assert u == 64 * x + u % 64 && x / 64 == u / 4096 && x == 64 * (x / 64) + x % 64;
  }

  /** The bytes of a code point that takes four. */
  function Four(u: nat): seq<byte>
    requires u < 0x200000
  {
    [240 + u / 262144, 128 + u / 4096 % 64, 128 + u / 64 % 64, 128 + u % 64]
  }

  /**
   Four bytes are one character.  Chinese are the code points 20000 to 2A6D6; from 40000 on the code takes the highest
   bits for 8000 each instead of 40000 (all hexadecimal).
   */
  lemma FourMeans(u: nat, rest: seq<byte>)
    requires u < 0x200000
    ensures First(Four(u) + rest) ==
            Segment(4, if 0x20000 <= u - u / 0x40000 * (0x40000 - 0x8000) <= 0x2A6D6 then 8 else 16)
    ensures u < 0x40000 ==> First(Four(u) + rest) == Segment(4, if 0x20000 <= u <= 0x2A6D6 then 8 else 16)
  {
    var s := Four(u) + rest;
    FourParts(u);
    assert s[0] == 240 + u / 262144 && s[1] == 128 + u / 4096 % 64 && s[2] == 128 + u / 64 % 64 && s[3] == 128 + u % 64;
    assert s[1..] == [s[1], s[2], s[3]] + rest;
    TailRuns([s[1], s[2], s[3]], rest);
    assert Wanted(s[0]) == 4;
  }

  lemma FourParts(u: nat)
    requires u < 0x200000
    ensures var a: byte, b: byte, c: byte, d: byte :=
              240 + u / 262144, 128 + u / 4096 % 64, 128 + u / 64 % 64, 128 + u % 64;
            && a as int % 8 == u / 0x40000
            && 4096 * (b as int % 64) + 64 * (c as int % 64) + d as int % 64 == u - u / 0x40000 * 0x40000
  {
    LowBits(u / 4096 % 64);
    LowBits(u / 64 % 64);
    LowBits(u % 64);
    Sixes(u);
    var y := u / 4096;
    assert y / 64 == u / 262144 && y == 64 * (y / 64) + y % 64;
  }

  /** What is not Chinese in any case: two, five and six bytes, and bytes that are no character. */
  lemma OthersMean(c: byte, tail: seq<byte>, rest: seq<byte>)
    requires Tail(tail)
    ensures 192 <= c < 224 && |tail| == 1 ==> First([c] + tail + rest) == Segment(2, 16)
    ensures 248 <= c < 252 && |tail| == 4 ==> First([c] + tail + rest) == Segment(5, 16)
    ensures 252 <= c < 254 && |tail| == 5 ==> First([c] + tail + rest) == Segment(6, 16)
    ensures 128 <= c < 192 || 254 <= c ==> First([c] + tail + rest) == Segment(1, 16)
  {
    var s := [c] + tail + rest;
    assert s[1..] == tail + rest;
    TailRuns(tail, rest);
  }

  /** A lead byte with fewer bytes behind it than it asks for stands alone. */
  lemma CutOffMeans(c: byte, tail: seq<byte>, rest: seq<byte>)
    requires Tail(tail) && (rest != [] ==> rest[0] < 128 || rest[0] >= 192)
    requires || (192 <= c < 224 && |tail| < 1) || (224 <= c < 240 && |tail| < 2) || (240 <= c < 248 && |tail| < 3)
             || (248 <= c < 252 && |tail| < 4) || (252 <= c < 254 && |tail| < 5)
    ensures First([c] + tail + rest) == Segment(1, 16)
  {
    var s := [c] + tail + rest;
    assert s[1..] == tail + rest;
    RunPlus(tail, rest);
    assert Run(rest) == [];
  }

  // ---------- What translating does ----------

  /** A dictionary that gives y for x: the first entry with the key x has the value y. */
  predicate Gives(log: seq<Entry>, x: seq<byte>, y: seq<byte>) {
    exists k :: 0 <= k < |log| && log[k] == Entry(x, y) && forall j :: 0 <= j < k ==> log[j].key != x
  }

  lemma {:induction false} LookupGives(log: seq<Entry>, x: seq<byte>, k: nat)
    requires k < |log| && log[k].key == x && forall j :: 0 <= j < k ==> log[j].key != x
    ensures Lookup(log, x) == log[k].value
    decreases k
  {
    if k > 0 {
      assert log[1..][k - 1] == log[k] && forall j :: 0 <= j < k - 1 ==> log[1..][j] == log[j + 1];
      LookupGives(log[1..], x, k - 1);
    }
  }

  lemma {:induction false} LookupKeeps(log: seq<Entry>, x: seq<byte>)
    requires forall k :: 0 <= k < |log| ==> log[k].key != x
    ensures Lookup(log, x) == x
    decreases |log|
  {
    if log != [] {
      assert forall k :: 0 <= k < |log| - 1 ==> log[1..][k] == log[k + 1];
      LookupKeeps(log[1..], x);
    }
  }

  /** The UTF-8 form of a code point of three or four bytes (section 3 of RFC 3629). */
  function Utf8(u: nat): seq<byte>
    requires u < 0x200000
  {
    if u < 65536 then Three(u) else Four(u)
  }

  predicate IsChineseCode(u: nat) {
    IsHan(u) || 0x20000 <= u <= 0x2A6D6
  }

  /** Up to 40000 (hexadecimal), exactly the Chinese code points make a Chinese character, whatever follows. */
  lemma CodeMeans(u: nat, rest: seq<byte>)
    requires u < 0x40000
    ensures First(Utf8(u) + rest) == Segment(|Utf8(u)|, if IsChineseCode(u) then 8 else 16)
    ensures Utf8(u) != [] && Utf8(u) + [] == Utf8(u)
  {
    hide First;
    if u < 65536 {
      ThreeMeans(u, rest);
    } else {
      FourMeans(u, rest);
    }
  }

  /** A Chinese character at the start of a text becomes what its first entry says; without one it stays. */
  lemma HanIsTranslated(log: seq<Entry>, u: nat, rest: seq<byte>)
    requires u < 0x40000 && IsChineseCode(u)
    ensures forall y: seq<byte> :: Gives(log, Utf8(u), y) ==>
              Translated(log, Utf8(u) + rest) == y + Translated(log, rest)
    ensures (forall k :: 0 <= k < |log| ==> log[k].key != Utf8(u)) ==>
              Translated(log, Utf8(u) + rest) == Utf8(u) + Translated(log, rest)
  {
    hide First, Translated, Utf8, Gives, IsChineseCode;
    var x := Utf8(u);
    CodeMeans(u, rest);
    CodeMeans(u, []);
    FirstTranslates(log, x, rest);
    forall y: seq<byte> | Gives(log, x, y)
      ensures Lookup(log, x) == y
    {
      GivesIs(log, x, y);
    }
    if forall k :: 0 <= k < |log| ==> log[k].key != x {
      LookupKeeps(log, x);
    }
  }

  lemma GivesIs(log: seq<Entry>, x: seq<byte>, y: seq<byte>)
    requires Gives(log, x, y)
    ensures Lookup(log, x) == y
  {
    var k :| 0 <= k < |log| && log[k] == Entry(x, y) && forall j :: 0 <= j < k ==> log[j].key != x;
    LookupGives(log, x, k);
  }

  /** The first character of a text is translated by itself. */
  lemma FirstTranslates(log: seq<Entry>, x: seq<byte>, rest: seq<byte>)
    requires x != [] && First(x + rest).len == |x|
    ensures First(x) == Segment(|x|, 8) ==> Translated(log, x + rest) == Lookup(log, x) + Translated(log, rest)
    ensures First(x) != Segment(|x|, 8) ==> Translated(log, x + rest) == x + Translated(log, rest)
  {
    hide First, Translated;
    var s := x + rest;
    assert s[..|x|] == x && s[|x|..] == rest;
    TranslatedStep(log, s);
  }

  /** Everything else is copied: other code points, and ASCII characters. */
  lemma OthersAreCopied(log: seq<Entry>, u: nat, c: byte, rest: seq<byte>)
    requires u < 0x40000 && !IsChineseCode(u) && c < 128
    ensures Translated(log, Utf8(u) + rest) == Utf8(u) + Translated(log, rest)
    ensures Translated(log, [c] + rest) == [c] + Translated(log, rest)
  {
    hide First, Translated, Utf8, IsChineseCode;
    CodeMeans(u, rest);
    CodeMeans(u, []);
    FirstTranslates(log, Utf8(u), rest);
    AsciiMeans(c, rest);
    AsciiMeans(c, []);
    assert [c] + [] == [c];
    FirstTranslates(log, [c], rest);
  }

  // ---------- The hash ----------

  /** The hash is multiplied by 65599 for each byte, which counts as a signed one, in 32 bits. */
  lemma HashMeans(s: seq<byte>, c: byte)
    ensures HashOf([]) == 0
    ensures HashOf(s + [c]) == (65599 * HashOf(s) + (if c < 128 then c as int else c as int - 256)) % 4294967296
    ensures Tag(s) == HashOf(s) % 2147483648 % 10000
  {
    assert (s + [c])[..|s|] == s;
  }
}
