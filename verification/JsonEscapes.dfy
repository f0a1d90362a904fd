/**
 The two passes of `parse_string`.  The first counts, and only knows that a backslash escapes the byte behind it; the
 second takes six bytes for an escape with a code unit, whatever the last four are.  Which texts both take apart alike,
 and that the buffer is large enough for those.
 */
module JsonEscapes {
  import opened Bytes
  import opened JsonText
  import opened Utf16

  /** A code unit stands at p. */
  predicate UnitAt(t: seq<byte>, p: nat) {
    At(t, p) == BACKSLASH && At(t, p + 1) == LETTER_U
  }

  predicate Stops(t: seq<byte>, p: nat) {
    At(t, p) == QUOTE || At(t, p) == 0
  }

  /** Both passes end the string that goes on at p at the same place. */
  predicate InStep(t: seq<byte>, p: nat) {
    p <= |t| && Pieces(t, p).Ok? && Pieces(t, p).end == StringStop(t, p)
  }

  /** The backslashes from p on, if any, are followed by a byte that does not end the string. */
  predicate RunGoesOn(t: seq<byte>, p: nat)
    decreases if p < |t| then |t| - p else 0
  {
    if At(t, p) == BACKSLASH then RunGoesOn(t, p + 1) else !Stops(t, p)
  }

  /**
   Between p and e nothing ends the string but what a backslash before it escapes; and if a backslash there escapes the
   byte at e, the backslashes from e on do not escape the end of the string.
   */
  predicate Through(t: seq<byte>, p: nat, e: nat)
    decreases if p < e then e - p else 0
  {
    if p >= e then p == e || RunGoesOn(t, e)
    else !Stops(t, p) && if At(t, p) == BACKSLASH then At(t, p + 1) != 0 && Through(t, p + 2, e) else Through(t, p + 1, e)
  }

  /** What a text has to be like for its escapes: each has the byte it needs, and one with a code unit four, as above. */
  predicate Sound(t: seq<byte>, p: nat)
    decreases if p < |t| then |t| - p else 0
  {
    if Stops(t, p) then true
    else if At(t, p) != BACKSLASH then Sound(t, p + 1)
    else if At(t, p + 1) != LETTER_U then At(t, p + 1) != 0 && Sound(t, p + 2)
    else Through(t, p + 2, p + 6) && Sound(t, p + 6)
  }

  /** Where the first pass comes to if it gets as far as e: there, or one byte behind a backslash before e. */
  function Landing(t: seq<byte>, p: nat, e: nat): (r: nat)
    requires p <= e
    ensures e <= r <= e + 1
    decreases e - p
  {
    if p == e then e
    else if At(t, p) != BACKSLASH then Landing(t, p + 1, e)
    else if p + 1 == e then e + 1
    else Landing(t, p + 2, e)
  }

  lemma {:induction false} Walk(t: seq<byte>, p: nat, e: nat)
    requires p <= e
    ensures var l := Landing(t, p, e);
            && (e <= StringStop(t, p) <= |t| ==>
                  StringStop(t, l) == StringStop(t, p) && Count(t, p) >= (l - p + 1) / 2 + Count(t, l))
            && (Through(t, p, e) ==>
                  GoesOn(t, p, e - p) && StringStop(t, l) == StringStop(t, p) && (l > e ==> RunGoesOn(t, e)))
            && (!Through(t, p, e) ==>
                  || StringStop(t, p) < e || StringStop(t, p) > |t|
                  || (l > e && !RunGoesOn(t, e) && At(t, e) != 0 && StringStop(t, l) == StringStop(t, p)))
    decreases e - p
  {
    if p < e && At(t, p) == BACKSLASH {
      if p + 1 < e {
        Walk(t, p + 2, e);
      } else {
        assert Through(t, p + 2, e) == RunGoesOn(t, e);
      }
    } else if p < e {
      Walk(t, p + 1, e);
    }
  }

  // ---------- The buffer is large enough ----------

  /** No fewer bytes than a piece is read as. */
  function Heft(x: Piece): nat {
    if x.Byte? then 1 else if x.u == 0 then 0 else 3
  }

  function Weight(ps: seq<Piece>): nat {
    if ps == [] then 0 else Heft(ps[0]) + Weight(ps[1..])
  }

  lemma OneMore(x: Piece, r: Result<seq<Piece>>)
    ensures r.Ok? ==> Weight(Before(x, r).value) == Heft(x) + Weight(r.value)
  {
  }

  lemma Utf8Length(c: nat)
    requires c < 0x110000
    ensures 1 <= |Utf8(c)| <= 4
    ensures c < 0x10000 ==> |Utf8(c)| <= 3
  {
  }

  lemma JoinIsCodePoint(high: nat, low: nat)
    ensures 0x10000 <= Join(high, low) < 0x110000
  {
  }

  lemma {:induction false} TranscodeWeighs(ps: seq<Piece>)
    ensures |Transcode(ps)| <= Weight(ps)
    decreases |ps|
  {
    hide Utf8, Join;
    if ps != [] {
      TranscodeWeighs(ps[1..]);
      if ps[0].Unit? && IsHigh(ps[0].u) && |ps| > 1 && ps[1].Unit? {
        assert ps[1..][1..] == ps[2..];
        TranscodeWeighs(ps[2..]);
        JoinIsCodePoint(ps[0].u, ps[1].u);
        Utf8Length(Join(ps[0].u, ps[1].u));
      } else if ps[0].Unit? && ps[0].u < 0x10000 {
        Utf8Length(ps[0].u);
      }
    }
  }

  // ---------- In step or not ----------

  /** The second pass is at q, and the first has taken the byte there with the one before and is behind it. */
  predicate OffInStep(t: seq<byte>, q: nat) {
    q <= |t| && Pieces(t, q).Ok? && Pieces(t, q).end == StringStop(t, q + 1)
  }

  /** Both passes end the string at the same place exactly if its escapes are sound, and then the buffer is large enough. */
  lemma {:induction false} Together(t: seq<byte>, p: nat)
    requires p <= |t|
    ensures InStep(t, p) <==> Sound(t, p)
    ensures InStep(t, p) ==> Weight(Pieces(t, p).value) <= Count(t, p)
    decreases |t| - p, 1
  {
    hide GoesOn, UnitValue, Unescaped;
    if Stops(t, p) {
    } else if At(t, p) != BACKSLASH {
      Together(t, p + 1);
      OneMore(Byte(At(t, p)), Pieces(t, p + 1));
    } else if UnitAt(t, p) {
      UnitTogether(t, p);
    } else if At(t, p + 1) != 0 {
      Together(t, p + 2);
      OneMore(Byte(Unescaped(At(t, p + 1))), Pieces(t, p + 2));
    }
  }

  lemma {:induction false} UnitTogether(t: seq<byte>, p: nat)
    requires p <= |t| && UnitAt(t, p)
    ensures InStep(t, p) <==> Sound(t, p)
    ensures InStep(t, p) ==> Weight(Pieces(t, p).value) <= Count(t, p)
    decreases |t| - p, 0
  {
    hide StringStop, Count, Through, Hex4;
    Walk(t, p + 2, p + 6);
    UnitFirst(t, p);
    if GoesOn(t, p + 2, 4) {
      assert At(t, p + 5) != 0;
      OneMore(Unit(UnitValue(t, p + 2)), Pieces(t, p + 6));
      if Landing(t, p + 2, p + 6) == p + 6 {
        Together(t, p + 6);
      } else if At(t, p + 6) != 0 {
        Apart(t, p + 6);
      }
    }
  }

  lemma UnitFirst(t: seq<byte>, p: nat)
    requires UnitAt(t, p)
    ensures StringStop(t, p) == StringStop(t, p + 2) && Count(t, p) == 1 + Count(t, p + 2)
    ensures Hex4At(t, p + 2) ==> Count(t, p + 2) == 4 + Count(t, p + 6) && Landing(t, p + 2, p + 6) == p + 6
  {
    if Hex4At(t, p + 2) {
      assert IsHex(At(t, p + 2)) && IsHex(At(t, p + 3)) && IsHex(At(t, p + 4)) && IsHex(At(t, p + 5));
      assert Count(t, p + 4) == 2 + Count(t, p + 6);
      assert Landing(t, p + 5, p + 6) == p + 6;
      assert Landing(t, p + 4, p + 6) == p + 6;
    }
  }

  lemma {:induction false} Apart(t: seq<byte>, q: nat)
    requires q <= |t| && At(t, q) != 0
    ensures OffInStep(t, q) <==> RunGoesOn(t, q) && Sound(t, q)
    ensures OffInStep(t, q) ==> Weight(Pieces(t, q).value) <= Count(t, q + 1) + 1
    decreases |t| - q, 1
  {
    hide GoesOn, UnitValue, Unescaped;
    if At(t, q) == QUOTE {
    } else if At(t, q) != BACKSLASH {
      Together(t, q + 1);
      OneMore(Byte(At(t, q)), Pieces(t, q + 1));
    } else if UnitAt(t, q) {
      UnitTogether(t, q);
    } else if At(t, q + 1) == BACKSLASH {
      assert RunGoesOn(t, q) == RunGoesOn(t, q + 1) == RunGoesOn(t, q + 2);
      OneMore(Byte(Unescaped(At(t, q + 1))), Pieces(t, q + 2));
      if At(t, q + 2) != 0 {
        Apart(t, q + 2);
      }
    } else if At(t, q + 1) != 0 {
      Together(t, q + 2);
      OneMore(Byte(Unescaped(At(t, q + 1))), Pieces(t, q + 2));
    }
  }

  /** The second pass does not write more than the first one has counted if both end the string at the same place. */
  lemma TranscodeFits(t: seq<byte>, p: nat)
    requires InStep(t, p)
    ensures |Transcode(Pieces(t, p).value)| <= Count(t, p) && Contained(t, p)
  {
    hide Transcode, Pieces;
    Together(t, p);
    TranscodeWeighs(Pieces(t, p).value);
  }

  /** Both passes agree and the buffer is not overrun exactly if the escapes are sound. */
  lemma SoundIsInStep(t: seq<byte>, p: nat)
    requires p <= |t|
    ensures Sound(t, p) <==> InStep(t, p) && |Transcode(Pieces(t, p).value)| <= Count(t, p)
  {
    hide Transcode, Pieces;
    Together(t, p);
    if InStep(t, p) {
      TranscodeFits(t, p);
    }
  }

  // ---------- Four bytes ----------

  /** If there is no backslash among the four bytes, they must only not end the string. */
  lemma ThroughPlain(t: seq<byte>, p: nat)
    requires forall k :: p <= k < p + 4 ==> At(t, k) != BACKSLASH
    ensures Through(t, p, p + 4) <==> forall k :: p <= k < p + 4 ==> !Stops(t, k)
  {
    hide Stops;
    assert At(t, p + 1) != BACKSLASH && At(t, p + 2) != BACKSLASH && At(t, p + 3) != BACKSLASH;
    assert Through(t, p + 3, p + 4) <==> !Stops(t, p + 3);
    assert Through(t, p + 2, p + 4) <==> !Stops(t, p + 2) && Through(t, p + 3, p + 4);
  }

  /** Every escape has the byte it needs, and one with a code unit four that are neither quote nor backslash. */
  predicate Plain(t: seq<byte>, p: nat)
    decreases if p < |t| then |t| - p else 0
  {
    if Stops(t, p) then true
    else if At(t, p) != BACKSLASH then Plain(t, p + 1)
    else if At(t, p + 1) != LETTER_U then At(t, p + 1) != 0 && Plain(t, p + 2)
    else (forall k :: p + 2 <= k < p + 6 ==> !Stops(t, k) && At(t, k) != BACKSLASH) && Plain(t, p + 6)
  }

  function Width(ps: seq<Piece>): nat {
    if ps == [] then 0 else (if ps[0].Byte? then 1 else 5) + Width(ps[1..])
  }

  lemma WidthOf(x: Piece, r: Result<seq<Piece>>)
    ensures r.Ok? ==> Width(Before(x, r).value) == (if x.Byte? then 1 else 5) + Width(r.value)
  {
  }

  lemma CountPlain(t: seq<byte>, p: nat)
    requires forall k :: p <= k < p + 4 ==> !Stops(t, k) && At(t, k) != BACKSLASH
    ensures Count(t, p) == 4 + Count(t, p + 4)
  {
    assert !Stops(t, p + 1) && !Stops(t, p + 2) && !Stops(t, p + 3);
    assert Count(t, p + 2) == 2 + Count(t, p + 4);
  }

  /** Such strings are sound, and the first pass counts one for a character and five for a code unit. */
  lemma {:induction false} CountIsWidth(t: seq<byte>, p: nat)
    requires p <= |t| && Plain(t, p)
    ensures Sound(t, p) && Pieces(t, p).Ok? && Count(t, p) == Width(Pieces(t, p).value)
    decreases |t| - p
  {
    hide UnitValue, Unescaped, Through;
    if Stops(t, p) {
    } else if At(t, p) != BACKSLASH {
      CountIsWidth(t, p + 1);
      WidthOf(Byte(At(t, p)), Pieces(t, p + 1));
    } else if At(t, p + 1) != LETTER_U {
      CountIsWidth(t, p + 2);
      WidthOf(Byte(Unescaped(At(t, p + 1))), Pieces(t, p + 2));
    } else {
      assert !Stops(t, p + 5);
      CountPlain(t, p + 2);
      ThroughPlain(t, p + 2);
      CountIsWidth(t, p + 6);
      WidthOf(Unit(UnitValue(t, p + 2)), Pieces(t, p + 6));
    }
  }

  // ---------- Examples ----------

  /** Four bytes that are no digits: "\uZZZZ" is read as the empty string. */
  lemma NoDigitsExample()
    ensures ParseString([QUOTE, BACKSLASH, LETTER_U, 90, 90, 90, 90, QUOTE], 0) == Ok([], 8)
  {
    var t := [QUOTE, BACKSLASH, LETTER_U, 90, 90, 90, 90, QUOTE];
    assert Pieces(t, 7) == Ok([], 7);
    assert [Unit(0)] + [] == [Unit(0)];
    assert Pieces(t, 1) == Before(Unit(0), Pieces(t, 7)) == Ok([Unit(0)], 7);
    assert Plain(t, 7) && Plain(t, 1);
    CountIsWidth(t, 1);
    SoundIsInStep(t, 1);
    assert Transcode([Unit(0)]) == Alone(0) + Transcode([]) == [];
  }

  /**
   "\u" followed by a quote and n + 3 letters: the first pass ends the string at that quote and counts one, the second
   goes on behind it and writes n.
   */
  lemma OverrunExample(n: nat)
    ensures var t := [BACKSLASH, LETTER_U, QUOTE] + seq(n + 3, _ => 65) + [QUOTE];
            && Pieces(t, 0).Ok? && Count(t, 0) == 1 && !Sound(t, 0)
            && |Transcode(Pieces(t, 0).value)| == n && (Contained(t, 0) <==> n <= 1)
  {
    var t := [BACKSLASH, LETTER_U, QUOTE] + seq(n + 3, _ => 65) + [QUOTE];
    assert Count(t, 2) == 0 && StringStop(t, 2) == 2;
    Letters(t, 6);
    assert GoesOn(t, 2, 4) && !Hex4At(t, 2);
    OneMore(Unit(0), Pieces(t, 6));
    var ps := Pieces(t, 0).value;
    assert ps[1..] == Pieces(t, 6).value;
    assert Transcode(ps) == Alone(0) + Transcode(ps[1..]) == Transcode(ps[1..]);
  }

  lemma {:induction false} Letters(t: seq<byte>, p: nat)
    requires p < |t| && t[|t| - 1] == QUOTE && forall k :: p <= k < |t| - 1 ==> t[k] == 65
    ensures Pieces(t, p).Ok? && |Transcode(Pieces(t, p).value)| == |t| - 1 - p
    decreases |t| - p
  {
    if p < |t| - 1 {
      Letters(t, p + 1);
      var ps := Pieces(t, p).value;
      assert ps[1..] == Pieces(t, p + 1).value;
    }
  }

  /** A string without a closing quote is read up to the end of the text, and accepted. */
  lemma UnterminatedIsRead(s: seq<byte>)
    requires QUOTE !in s && BACKSLASH !in s && 0 !in s
    ensures ParseString([QUOTE] + s, 0) == Ok(s, |s| + 1)
  {
    hide Transcode;
    var t := [QUOTE] + s;
    forall k | 1 <= k < |t|
      ensures t[k] != QUOTE && t[k] != BACKSLASH && t[k] != 0
    {
      assert t[k] == s[k - 1];
    }
    PlainText(t, 1);
    TranscodeFits(t, 1);
    assert t[1..] == s;
  }

  lemma {:induction false} PlainText(t: seq<byte>, p: nat)
    requires p <= |t| && forall k :: p <= k < |t| ==> t[k] != QUOTE && t[k] != BACKSLASH && t[k] != 0
    ensures InStep(t, p) && Pieces(t, p).end == |t| && Transcode(Pieces(t, p).value) == t[p..]
    decreases |t| - p
  {
    hide UnitValue, Unescaped, Utf8, Join, Alone, GoesOn;
    if p < |t| {
      PlainText(t, p + 1);
      var ps := Pieces(t, p).value;
      assert ps[1..] == Pieces(t, p + 1).value;
      assert t[p..] == [t[p]] + t[p + 1..];
    }
  }
}
