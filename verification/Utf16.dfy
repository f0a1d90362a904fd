/**
 UTF-16: writing a character (`ord2utf`), accepting a string (`valid_utf`) and reading its characters back
 (the GETCHARINC macro), as they are where UTF support is compiled in.
 */
module Utf16 {

  type unit = u: int | 0 <= u < 0x10000

  const PCRE_UTF16_ERR0 := 0
  const PCRE_UTF16_ERR1 := 1
  const PCRE_UTF16_ERR2 := 2
  const PCRE_UTF16_ERR3 := 3

  predicate IsHigh(u: nat) { 0xD800 <= u <= 0xDBFF }

  predicate IsLow(u: nat) { 0xDC00 <= u <= 0xDFFF }

  /** The code point of a surrogate pair (section 2.1 of RFC 2781). */
  function Join(high: nat, low: nat): nat {
    0x10000 + high % 1024 * 1024 + low % 1024
  }

  /** A pair is joined as section 2.1 of RFC 2781 splits it. */
  lemma JoinSplits(high: nat, low: nat)
    requires IsHigh(high) && IsLow(low)
    ensures var c := Join(high, low);
            high == 0xD800 + (c - 0x10000) / 1024 && low == 0xDC00 + (c - 0x10000) % 1024
  {
  }

  /** A Unicode scalar value: a code point that is not a surrogate. */
  predicate IsScalar(c: nat) {
    c < 0x110000 && !IsHigh(c) && !IsLow(c)
  }

  predicate AllScalars(cs: seq<nat>) {
    forall k :: 0 <= k < |cs| ==> IsScalar(cs[k])
  }

  /** The units of one code point (section 2.1 of RFC 2781). */
  function Units(c: nat): seq<unit>
    requires c < 0x110000
  {
    if c < 0x10000 then [c] else [0xD800 + (c - 0x10000) / 1024, 0xDC00 + (c - 0x10000) % 1024]
  }

  /** Scalar values are all but D800 to DFFF; from 10000 (hexadecimal) on they take two units, with ten bits each. */
  lemma UnitsMean(c: nat)
    ensures IsScalar(c) <==> c < 55296 || 57344 <= c < 1114112
    ensures c < 65536 ==> Units(c) == [c]
    ensures 65536 <= c < 1114112 ==>
              var us := Units(c);
              && |us| == 2 && 55296 <= us[0] < 56320 <= us[1] < 57344
              && c == 65536 + (us[0] as int - 55296) * 1024 + (us[1] as int - 56320)
  {
  }

  function Encode(cs: seq<nat>): seq<unit>
    requires AllScalars(cs)
  {
    if cs == [] then [] else Units(cs[0]) + Encode(cs[1..])
  }

  /** The units are those of some list of scalar values. */
  ghost predicate WellFormed(us: seq<unit>) {
    exists cs: seq<nat> :: AllScalars(cs) && Encode(cs) == us
  }

  /** Reading characters one after another; the zero behind a string is what a cut-off pair would read. */
  function Decode(us: seq<unit>): seq<nat> {
    if us == [] then []
    else if !IsHigh(us[0]) then [us[0]] + Decode(us[1..])
    else if |us| == 1 then [Join(us[0], 0)]
    else [Join(us[0], us[1])] + Decode(us[2..])
  }

  // ---------- Both ways ----------

  /** What the units of a character are, whatever follows them. */
  lemma UnitsOf(c: nat, rest: seq<unit>)
    requires IsScalar(c)
    ensures var us := Units(c) + rest;
            us != [] && !IsLow(us[0]) && (IsHigh(us[0]) <==> |Units(c)| == 2)
            && us[|Units(c)|..] == rest
            && (IsHigh(us[0]) ==> IsLow(us[1]) && Join(us[0], us[1]) == c) && (!IsHigh(us[0]) ==> us[0] == c)
  {
    assert (Units(c) + rest)[|Units(c)|..] == rest;
  }

  /** Every list of scalar values is read back from its units. */
  lemma {:induction false} DecodeUndoesEncode(cs: seq<nat>)
    requires AllScalars(cs)
    ensures Decode(Encode(cs)) == cs
  {
    if cs != [] {
      UnitsOf(cs[0], Encode(cs[1..]));
      DecodeUndoesEncode(cs[1..]);
      assert cs == [cs[0]] + cs[1..];
    }
  }

  /** Units that are accepted are those of exactly one list, and reading them gives that list. */
  lemma EncodeUndoesDecode(us: seq<unit>)
    requires WellFormed(us)
    ensures AllScalars(Decode(us)) && Encode(Decode(us)) == us
    ensures forall cs: seq<nat> :: AllScalars(cs) && Encode(cs) == us ==> cs == Decode(us)
  {
    forall cs: seq<nat> | AllScalars(cs) && Encode(cs) == us
      ensures cs == Decode(us)
    {
      DecodeUndoesEncode(cs);
    }
  }

  lemma SameFirst(c: nat, cs: seq<unit>, d: nat, ds: seq<unit>)
    requires IsScalar(c) && IsScalar(d) && Units(c) + cs == Units(d) + ds
    ensures c == d && cs == ds
  {
    UnitsOf(c, cs);
    UnitsOf(d, ds);
  }

  lemma {:induction false} EncodeJoin(cs: seq<nat>, ds: seq<nat>)
    requires AllScalars(cs) && AllScalars(ds)
    ensures Encode(cs + ds) == Encode(cs) + Encode(ds)
  {
    if cs == [] {
      assert cs + ds == ds;
    } else {
      assert (cs + ds)[1..] == cs[1..] + ds;
      EncodeJoin(cs[1..], ds);
    }
  }

  /** Where one list of characters ends inside the units of another, the other goes on. */
  lemma {:induction false} RestIsEncoded(cs: seq<nat>, ds: seq<nat>, tail: seq<unit>) returns (es: seq<nat>)
    requires AllScalars(cs) && AllScalars(ds) && Encode(cs) == Encode(ds) + tail
    ensures AllScalars(es) && Encode(es) == tail
  {
    if ds == [] {
      es := cs;
    } else {
      hide Units;
      assert Encode(cs) == Units(ds[0]) + (Encode(ds[1..]) + tail);
      UnitsOf(ds[0], Encode(ds[1..]) + tail);
      SameFirst(cs[0], Encode(cs[1..]), ds[0], Encode(ds[1..]) + tail);
      es := RestIsEncoded(cs[1..], ds[1..], tail);
    }
  }

  /** No character begins in a wrong way. */
  predicate Misfit(tail: seq<unit>) {
    tail != [] && (IsLow(tail[0]) || (IsHigh(tail[0]) && (|tail| == 1 || !IsLow(tail[1]))))
  }

  /** Well-formed units go on being so by one more character, and stop being so at a misfit. */
  lemma OneMore(us: seq<unit>, p: nat, c: nat)
    requires p <= |us| && WellFormed(us[..p]) && IsScalar(c)
    requires p + |Units(c)| <= |us| && us[p..p + |Units(c)|] == Units(c)
    ensures WellFormed(us[..p + |Units(c)|])
  {
    var cs: seq<nat> :| AllScalars(cs) && Encode(cs) == us[..p];
    EncodeJoin(cs, [c]);
    assert Encode([c]) == Units(c) + Encode([]) == Units(c);
    assert us[..p] + us[p..p + |Units(c)|] == us[..p + |Units(c)|];
    assert AllScalars(cs + [c]) && Encode(cs + [c]) == us[..p + |Units(c)|];
  }

  lemma NoMisfit(cs: seq<nat>)
    requires AllScalars(cs)
    ensures !Misfit(Encode(cs))
  {
    if cs != [] {
      UnitsOf(cs[0], Encode(cs[1..]));
    }
  }

  /** What is wrong: a high half that ends the string, one that no low half follows, a low half by itself. */
  lemma MisfitMeans(tail: seq<unit>)
    ensures Misfit(tail) <==>
            tail != [] && (56320 <= tail[0] < 57344 ||
            (55296 <= tail[0] < 56320 && (|tail| == 1 || !(56320 <= tail[1] < 57344))))
  {
  }

  lemma MisfitIsFinal(us: seq<unit>, p: nat)
    requires p <= |us| && WellFormed(us[..p]) && Misfit(us[p..])
    ensures !WellFormed(us)
  {
    if WellFormed(us) {
      var ds: seq<nat> :| AllScalars(ds) && Encode(ds) == us[..p];
      var cs: seq<nat> :| AllScalars(cs) && Encode(cs) == us;
      assert us == us[..p] + us[p..];
      var es := RestIsEncoded(cs, ds, us[p..]);
      NoMisfit(es);
    }
  }

  // ---------- The code ----------

  /** Puts the units of a character into the buffer and counts them. */
  method Ord2Utf(cvalue: nat, buffer: array<unit>) returns (n: nat)
    requires cvalue < 0x110000 && buffer.Length >= 2
    modifies buffer
    ensures n == |Units(cvalue)| && buffer[..n] == Units(cvalue)
    ensures buffer[n..] == old(buffer[n..])
  {
    if cvalue <= 0xffff {
      buffer[0] := cvalue;
      return 1;
    }
    var c := cvalue - 0x10000;
    buffer[0] := 0xd800 + c / 1024;
    buffer[1] := 0xdc00 + c % 1024;
    n := 2;
  }

  /** The units a call means: up to the zero if the length is not given. */
  function Meant(text: seq<unit>, length: int): seq<unit>
    requires length <= |text|
  {
    if length >= 0 then text[..length] else UpToZero(text)
  }

  function UpToZero(s: seq<unit>): seq<unit> {
    if s == [] || s[0] == 0 then [] else [s[0]] + UpToZero(s[1..])
  }

  lemma {:induction false} UpToZeroIs(s: seq<unit>, n: nat)
    requires n < |s| && s[n] == 0 && forall k :: 0 <= k < n ==> s[k] != 0
    ensures UpToZero(s) == s[..n]
  {
    if n > 0 {
      UpToZeroIs(s[1..], n - 1);
      assert s[..n] == [s[0]] + s[1..][..n - 1];
    }
  }

  /**
   What comes before the character that is wrong is well formed, and the code and the offset say what is wrong with
   it: a high surrogate at the end; a high surrogate followed, at the offset, by something else than a low one; a low
   one on its own.
   */
  ghost predicate Explains(us: seq<unit>, rc: nat, e: nat) {
    match rc
    case 0 => true
    case 1 => e == |us| - 1 && IsHigh(us[e]) && WellFormed(us[..e])
    case 2 => 0 < e < |us| && IsHigh(us[e - 1]) && !IsLow(us[e]) && WellFormed(us[..e - 1])
    case 3 => e < |us| && IsLow(us[e]) && WellFormed(us[..e])
    case _ => false
  }

  /** Accepts exactly the encodings of lists of scalar values. */
  method ValidUtf(text: seq<unit>, length0: int) returns (rc: nat, erroroffset: nat)
    requires length0 <= |text| && (length0 < 0 ==> 0 in text)
    ensures rc == PCRE_UTF16_ERR0 <==> WellFormed(Meant(text, length0))
    ensures Explains(Meant(text, length0), rc, erroroffset)
  {
    var length := length0;
    if length < 0 {
      var p: nat := 0;
      while text[p] != 0
        invariant p < |text| && forall k :: 0 <= k < p ==> text[k] != 0
        decreases |text| - p
      {
        p := p + 1;
      }
      UpToZeroIs(text, p);
      length := p;
    }
    rc, erroroffset := Check(text[..length]);
  }

  lemma Bits(c: unit)
    ensures c / 2048 == 27 <==> IsHigh(c) || IsLow(c)
    ensures c / 1024 == 55 <==> IsLow(c)
    ensures c / 1024 == 54 <==> IsHigh(c)
    ensures c / 2048 == 27 ==> (c / 1024 % 2 == 0 <==> IsHigh(c))
  {
  }

  lemma PairIsOne(us: seq<unit>, p: nat)
    requires p + 2 <= |us| && WellFormed(us[..p]) && IsHigh(us[p]) && IsLow(us[p + 1])
    ensures WellFormed(us[..p + 2])
  {
    JoinSplits(us[p], us[p + 1]);
    assert us[p..p + 2] == Units(Join(us[p], us[p + 1]));
    OneMore(us, p, Join(us[p], us[p + 1]));
  }

  /** The loop of `valid_utf`, over the units of the string. */
  method Check(us: seq<unit>) returns (rc: nat, erroroffset: nat)
    ensures rc == PCRE_UTF16_ERR0 <==> WellFormed(us)
    ensures Explains(us, rc, erroroffset)
  {
    assert AllScalars([]) && Encode([]) == us[..0];
    hide WellFormed, Encode, IsHigh, IsLow;
    var length: nat := |us|;
    var p: nat := 0;
    while length > 0
      invariant p + length == |us|
      invariant WellFormed(us[..p])
    {
      length := length - 1;
      var c := us[p];
      Bits(c);
      if c / 2048 != 27 {
        assert us[p..p + 1] == Units(c);
        OneMore(us, p, c);
      } else if c / 1024 % 2 == 0 {
        if length == 0 {
          MisfitIsFinal(us, p);
          return PCRE_UTF16_ERR1, p;
        }
        p := p + 1;
        length := length - 1;
        Bits(us[p]);
        if us[p] / 1024 != 55 {
          MisfitIsFinal(us, p - 1);
          return PCRE_UTF16_ERR2, p;
        }
        PairIsOne(us, p - 1);
      } else {
        MisfitIsFinal(us, p);
        return PCRE_UTF16_ERR3, p;
      }
      p := p + 1;
    }
    assert us[..p] == us;
    return PCRE_UTF16_ERR0, 0;
  }

  lemma Continues(us: seq<unit>, p: nat)
    requires p < |us| && WellFormed(us[..p]) && WellFormed(us)
    ensures !IsLow(us[p]) && (IsHigh(us[p]) ==> p + 1 < |us| && IsLow(us[p + 1]))
  {
    if Misfit(us[p..]) {
      MisfitIsFinal(us, p);
    }
  }

  /** Reads the character at p and moves on; where the units are well formed nothing behind them is read. */
  method GetCharInc(us: seq<unit>, p: nat) returns (c: nat, q: nat)
    requires p < |us| && WellFormed(us[..p]) && WellFormed(us)
    ensures IsScalar(c) && p < q <= |us| && us[p..q] == Units(c) && WellFormed(us[..q])
  {
    Continues(us, p);
    c := us[p];
    q := p + 1;
    if c / 1024 == 54 {
      JoinSplits(c, us[q]);
      c := c % 1024 * 1024 + us[q] % 1024 + 0x10000;
      q := q + 1;
    }
    OneMore(us, p, c);
  }
}
