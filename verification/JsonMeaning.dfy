/**
 `cJSON_Minify` does not change what a text means: whatever the parser reads, with any blanks and
 control characters between its parts, it reads the same value from what Minify has left.
 */
module JsonMeaning {
  import opened Bytes
  import opened JsonText
  import opened JsonEscapes
  import opened JsonRoundTrip
  import opened JsonMinify

  /** Both passes of the parser end each string of the value at i, and of what is in it, at the same place. */
  predicate ValueInStep(t: seq<byte>, i: nat)
    requires i <= |t|
    decreases |t| - i, 0
  {
    if At(t, i) == QUOTE then InStep(t, i + 1)
    else if At(t, i) == LBRACKET then
      var p := Skip(t, i + 1);
      At(t, p) == RBRACKET || ItemsInStep(t, p)
    else if At(t, i) == LBRACE then
      var p := Skip(t, i + 1);
      At(t, p) == RBRACE || MembersInStep(t, p)
    else true
  }

  predicate ItemsInStep(t: seq<byte>, i: nat)
    requires i <= |t|
    decreases |t| - i, 1
  {
    && ValueInStep(t, i)
    && match ParseValue(t, i)
       case Ok(_, end) =>
         var p := Skip(t, end);
         At(t, p) == COMMA ==> ItemsInStep(t, Skip(t, p + 1))
       case _ => true
  }

  predicate MembersInStep(t: seq<byte>, i: nat)
    requires i <= |t|
    decreases |t| - i, 1
  {
    match ParseString(t, i)
    case Ok(_, end0) =>
      var c := Skip(t, end0);
      && InStep(t, i + 1)
      && (At(t, c) == COLON ==>
            var a := Skip(t, c + 1);
            && ValueInStep(t, a)
            && match ParseValue(t, a)
               case Ok(_, end) =>
                 var p := Skip(t, end);
                 At(t, p) == COMMA ==> MembersInStep(t, Skip(t, p + 1))
               case _ => true)
    case _ => true
  }

  /** What is left of t from i on is what m holds from j on. */
  predicate Aligned(t: seq<byte>, i: nat, m: seq<byte>, j: nat) {
    i <= |t| && j <= |m| && Minified(t, i) == Left(m[j..])
  }

  lemma AlignedLeaves(t: seq<byte>, i: nat, m: seq<byte>, j: nat, n: nat, f: seq<byte>)
    requires Aligned(t, i, m, j) && Leaves(t, i, n, f)
    ensures HasAt(m, j, f) && Aligned(t, i + n, m, j + |f|)
  {
    hide Minified;
    var rest := Minified(t, i + n).s;
    assert m[j..] == f + rest;
    assert |m[j..]| == |f| + |rest|;
    assert m[j..j + |f|] == m[j..][..|f|] == f;
    assert m[j + |f|..] == m[j..][|f|..] == rest;
  }

  /** A character that Minify copies. */
  lemma AlignedByte(t: seq<byte>, i: nat, m: seq<byte>, j: nat)
    requires Aligned(t, i, m, j) && IsPlain(At(t, i))
    ensures At(m, j) == At(t, i) && j < |m| && Aligned(t, i + 1, m, j + 1)
  {
    assert HasAt(t, i, [t[i]]);
    PlainLeaves(t, i, [t[i]]);
    AlignedLeaves(t, i, m, j, 1, [t[i]]);
    HasAtByte(m, j, [t[i]], 0);
  }

  lemma AlignedEnd(t: seq<byte>, i: nat, m: seq<byte>, j: nat)
    requires Aligned(t, i, m, j) && At(t, i) == 0
    ensures j == |m| && At(m, j) == 0
  {
    assert |m[j..]| == 0;
  }

  lemma AlignedQuote(t: seq<byte>, i: nat, m: seq<byte>, j: nat)
    requires Aligned(t, i, m, j) && At(t, i) == QUOTE
    ensures var e := StringStop(t, i + 1);
            && i < e < |t| && t[e] == QUOTE && HasAt(m, j, t[i..e + 1]) && At(m, j) == QUOTE
            && Aligned(t, e + 1, m, j + (e + 1 - i))
  {
    hide StringStop, Minified, Leaves, HasAt;
    var e := StringStop(t, i + 1);
    QuoteLeaves(t, i);
    AlignedLeaves(t, i, m, j, e + 1 - i, t[i..e + 1]);
    HasAtByte(m, j, t[i..e + 1], 0);
  }

  lemma QuoteLeaves(t: seq<byte>, i: nat)
    requires i < |t| && t[i] == QUOTE && Minified(t, i).Left?
    ensures var e := StringStop(t, i + 1);
            i < e < |t| && t[e] == QUOTE && Leaves(t, i, e + 1 - i, t[i..e + 1])
  {
    hide StringStop, Minified;
    MinifiedStep(t, i);
    StopIsQuote(t, i + 1);
  }

  lemma {:induction false} StopIsQuote(t: seq<byte>, p: nat)
    ensures At(t, StringStop(t, p)) != 0 ==> At(t, StringStop(t, p)) == QUOTE
    decreases if p < |t| then |t| - p else 0
  {
    if At(t, p) != 0 && At(t, p) != QUOTE {
      StopIsQuote(t, if At(t, p) == BACKSLASH then p + 2 else p + 1);
    }
  }

  lemma {:induction false} SkipAligned(t: seq<byte>, i: nat, m: seq<byte>, j: nat)
    requires Aligned(t, i, m, j) && At(t, Skip(t, i)) != SLASH
    ensures Aligned(t, Skip(t, i), m, Skip(m, j)) && At(m, Skip(m, j)) == At(t, Skip(t, i))
    decreases |t| - i
  {
    hide Minified, StringStop;
    var c := At(t, i);
    if c == 0 {
      AlignedEnd(t, i, m, j);
    } else if IsBlank(c) {
      assert Aligned(t, i + 1, m, j) by { BlankDropped(t, i); }
      SkipAligned(t, i + 1, m, j);
    } else if c == QUOTE {
      AlignedQuote(t, i, m, j);
    } else if c <= SPACE {
      AlignedByte(t, i, m, j);
      SkipAligned(t, i + 1, m, j + 1);
    } else {
      AlignedByte(t, i, m, j);
    }
  }

  lemma BlankDropped(t: seq<byte>, i: nat)
    requires i < |t| && IsBlank(t[i])
    ensures Minified(t, i) == Minified(t, i + 1)
  {
  }

  // ---------- Numbers ----------

  /** What may come after a value in an array, in an object, or at the end of the text. */
  predicate Closes(c: byte) {
    c == 0 || c == COMMA || c == RBRACKET || c == RBRACE
  }

  predicate Ender(c: byte) {
    c <= SPACE || Closes(c)
  }

  lemma EnderAt(t: seq<byte>, e: nat, m: seq<byte>, k: nat)
    requires Aligned(t, e, m, k) && Closes(At(t, Skip(t, e)))
    ensures Ender(At(m, k))
  {
    hide Minified;
    SkipAligned(t, e, m, k);
  }

  /** m has from j on what t has between i and e. */
  predicate Same(t: seq<byte>, i: nat, e: nat, m: seq<byte>, j: nat) {
    i <= e <= |t| && j + (e - i) <= |m| && forall k :: i <= k < e ==> m[j + (k - i)] == t[k]
  }

  lemma HasAtSame(t: seq<byte>, i: nat, e: nat, m: seq<byte>, j: nat)
    requires i <= e <= |t| && HasAt(m, j, t[i..e])
    ensures Same(t, i, e, m, j)
  {
    forall k | i <= k < e
      ensures m[j + (k - i)] == t[k]
    {
      assert m[j..j + (e - i)][k - i] == t[i..e][k - i];
    }
  }

  lemma SamePart(t: seq<byte>, i: nat, e: nat, m: seq<byte>, j: nat, a: nat, b: nat)
    requires Same(t, i, e, m, j) && i <= a <= b <= e
    ensures Same(t, a, b, m, j + (a - i))
  {
    forall k | a <= k < b
      ensures m[j + (a - i) + (k - a)] == t[k]
    {
      assert m[j + (k - i)] == t[k];
    }
  }

  lemma {:induction false} DigitsEndSame(t: seq<byte>, i: nat, e: nat, m: seq<byte>, j: nat)
    requires Same(t, i, e, m, j) && DigitsEnd(t, i) <= e && !IsDigit(At(m, j + (e - i)))
    ensures DigitsEnd(m, j) == j + (DigitsEnd(t, i) - i)
    decreases e - i
  {
    if i < e {
      assert m[j + (i - i)] == t[i];
      if IsDigit(t[i]) {
        SamePart(t, i, e, m, j, i + 1, e);
        DigitsEndSame(t, i + 1, e, m, j + 1);
      }
    }
  }

  lemma {:induction false} DigitsValueSame(t: seq<byte>, i: nat, e: nat, m: seq<byte>, j: nat)
    requires Same(t, i, e, m, j) && forall k :: i <= k < e ==> IsDigit(t[k])
    ensures forall k :: j <= k < j + (e - i) ==> IsDigit(m[k])
    ensures DigitsValue(m, j, j + (e - i)) == DigitsValue(t, i, e)
    decreases e - i
  {
    forall k | j <= k < j + (e - i)
      ensures IsDigit(m[k])
    {
      assert m[j + ((k - j + i) - i)] == t[k - j + i];
    }
    if i < e {
      SamePart(t, i, e, m, j, i, e - 1);
      DigitsValueSame(t, i, e - 1, m, j);
      assert m[j + ((e - 1) - i)] == t[e - 1];
    }
  }

  /** The integer part. */
  lemma IntSame(t: seq<byte>, i: nat, e: nat, m: seq<byte>, j: nat)
    requires Same(t, i, e, m, j) && IntEnd(t, i) <= e && i < e && Ender(At(m, j + (e - i)))
    ensures SignEnd(m, j) == j + (SignEnd(t, i) - i) && IntStart(m, j) == j + (IntStart(t, i) - i)
    ensures IntEnd(m, j) == j + (IntEnd(t, i) - i)
    ensures DigitsValue(m, IntStart(m, j), IntEnd(m, j)) == DigitsValue(t, IntStart(t, i), IntEnd(t, i))
  {
    hide DigitsEnd, DigitsValue;
    var b, c := IntStart(t, i), IntEnd(t, i);
    assert m[j + (i - i)] == t[i];
    if SignEnd(t, i) < e {
      assert m[j + (SignEnd(t, i) - i)] == t[SignEnd(t, i)];
    }
    if b < e {
      assert m[j + (b - i)] == t[b];
    }
    SamePart(t, i, e, m, j, b, e);
    if b < e && IsDigit(t[b]) && t[b] != ZERO {
      DigitsEndSame(t, b, e, m, j + (b - i));
    }
    SamePart(t, i, e, m, j, b, c);
    DigitsValueSame(t, b, c, m, j + (b - i));
  }

  /** The fraction. */
  lemma FractionSame(t: seq<byte>, c: nat, e: nat, m: seq<byte>, j: nat)
    requires Same(t, c, e, m, j) && FractionEnd(t, c) <= e && Ender(At(m, j + (e - c)))
    ensures FractionEnd(m, j) == j + (FractionEnd(t, c) - c)
    ensures FractionValue(m, j) == FractionValue(t, c)
  {
    hide DigitsEnd, DigitsValue, Pow10;
    if HasFraction(t, c) {
      var d := FractionEnd(t, c);
      Further(t, c + 1);
      assert m[j + (c - c)] == t[c] && m[j + ((c + 1) - c)] == t[c + 1];
      SamePart(t, c, e, m, j, c + 1, e);
      DigitsEndSame(t, c + 1, e, m, j + 1);
      SamePart(t, c, e, m, j, c + 1, d);
      DigitsValueSame(t, c + 1, d, m, j + 1);
    } else if c < e {
      assert m[j + (c - c)] == t[c];
      if c + 1 < e {
        assert m[j + ((c + 1) - c)] == t[c + 1];
      }
    }
  }

  /** The exponent. */
  lemma ExponentSame(t: seq<byte>, d: nat, e: nat, m: seq<byte>, j: nat)
    requires Same(t, d, e, m, j) && ExponentEnd(t, d) == e && Ender(At(m, j + (e - d)))
    ensures ExponentEnd(m, j) == j + (e - d)
    ensures ExponentValue(m, j) == ExponentValue(t, d)
  {
    hide DigitsEnd, DigitsValue;
    if HasExponent(t, d) {
      var s := ExponentStart(t, d);
      assert m[j + (d - d)] == t[d];
      if d + 1 < e {
        assert m[j + ((d + 1) - d)] == t[d + 1];
      }
      SamePart(t, d, e, m, j, s, e);
      DigitsEndSame(t, s, e, m, j + (s - d));
      DigitsValueSame(t, s, e, m, j + (s - d));
    }
  }

  lemma NumberSame(t: seq<byte>, i: nat, m: seq<byte>, j: nat)
    requires i <= |t| && i < NumberEnd(t, i) && Same(t, i, NumberEnd(t, i), m, j)
    requires Ender(At(m, j + (NumberEnd(t, i) - i)))
    ensures NumberEnd(m, j) == j + (NumberEnd(t, i) - i) && NumberValue(m, j) == NumberValue(t, i)
  {
    hide DigitsEnd, DigitsValue, FractionValue, ExponentValue, Pow10, IntEnd, FractionEnd, ExponentEnd;
    var c := IntEnd(t, i);
    var d := FractionEnd(t, c);
    var e := ExponentEnd(t, d);
    assert m[j + (i - i)] == t[i];
    IntSame(t, i, e, m, j);
    SamePart(t, i, e, m, j, c, e);
    FractionSame(t, c, e, m, j + (c - i));
    SamePart(t, i, e, m, j, d, e);
    ExponentSame(t, d, e, m, j + (d - i));
  }

  /** The characters of a number are copied by Minify. */
  lemma NumberPlain(t: seq<byte>, i: nat)
    requires i <= |t|
    ensures forall k :: i <= k < NumberEnd(t, i) ==> IsPlain(t[k])
  {
    hide DigitsEnd;
    var b, c := IntStart(t, i), IntEnd(t, i);
    var d := FractionEnd(t, c);
    var e := ExponentEnd(t, d);
    forall k | i <= k < e
      ensures IsPlain(t[k])
    {
      if b <= k < c {
        assert IsDigit(t[k]);
      }
      if c < k < d || d < k < e {
        assert IsDigit(t[k]) || k == d + 1;
      }
    }
  }

  // ---------- Strings ----------

  lemma {:induction false} PiecesSame(t: seq<byte>, p: nat, e: nat, m: seq<byte>, q: nat)
    requires p <= |t| && Pieces(t, p).Ok? && Pieces(t, p).end == e < |t| && Same(t, p, e + 1, m, q)
    ensures Pieces(m, q) == Ok(Pieces(t, p).value, q + (e - p))
    decreases |t| - p
  {
    hide UnitValue, Unescaped, GoesOn;
    assert m[q + (p - p)] == t[p] && m[q + (e - p)] == t[e];
    if p == e {
    } else if t[p] != BACKSLASH {
      SamePart(t, p, e + 1, m, q, p + 1, e + 1);
      PiecesSame(t, p + 1, e, m, q + 1);
    } else if At(t, p + 1) != LETTER_U {
      assert m[q + ((p + 1) - p)] == t[p + 1];
      SamePart(t, p, e + 1, m, q, p + 2, e + 1);
      PiecesSame(t, p + 2, e, m, q + 2);
    } else {
      assert m[q + ((p + 1) - p)] == t[p + 1];
      SamePart(t, p, e + 1, m, q, p + 2, p + 6);
      UnitSame(t, p + 2, m, q + 2);
      SamePart(t, p, e + 1, m, q, p + 6, e + 1);
      PiecesSame(t, p + 6, e, m, q + 6);
    }
  }

  lemma UnitSame(t: seq<byte>, p: nat, m: seq<byte>, q: nat)
    requires Same(t, p, p + 4, m, q)
    ensures UnitValue(m, q) == UnitValue(t, p) && (GoesOn(m, q, 4) <==> GoesOn(t, p, 4))
  {
    assert m[q + (p - p)] == t[p] && m[q + ((p + 1) - p)] == t[p + 1];
    assert m[q + ((p + 2) - p)] == t[p + 2] && m[q + ((p + 3) - p)] == t[p + 3];
    FourGoOn(t, p);
    FourGoOn(m, q);
  }

  lemma FourGoOn(t: seq<byte>, p: nat)
    ensures GoesOn(t, p, 4) <==> At(t, p) != 0 && At(t, p + 1) != 0 && At(t, p + 2) != 0 && At(t, p + 3) != 0
  {
  }

  lemma {:induction false} StopSame(t: seq<byte>, p: nat, e: nat, m: seq<byte>, q: nat)
    requires StringStop(t, p) == e < |t| && Same(t, p, e + 1, m, q)
    ensures StringStop(m, q) == q + (e - p)
    decreases e - p
  {
    assert m[q + (p - p)] == t[p];
    if p < e {
      var n := if t[p] == BACKSLASH then 2 else 1;
      assert t[p] == BACKSLASH ==> m[q + ((p + 1) - p)] == t[p + 1];
      SamePart(t, p, e + 1, m, q, p + n, e + 1);
      StopSame(t, p + n, e, m, q + n);
    }
  }

  lemma StringAligned(t: seq<byte>, i: nat, m: seq<byte>, j: nat) returns (k: nat)
    requires Aligned(t, i, m, j) && ParseString(t, i).Ok? && InStep(t, i + 1)
    ensures j <= |m| && ParseString(m, j) == Ok(ParseString(t, i).value, k) && Aligned(t, ParseString(t, i).end, m, k)
  {
    hide Minified, Pieces, Transcode, StringStop, Contained;
    AlignedQuote(t, i, m, j);
    var e := StringStop(t, i + 1);
    HasAtSame(t, i, e + 1, m, j);
    SamePart(t, i, e + 1, m, j, i + 1, e + 1);
    PiecesSame(t, i + 1, e, m, j + 1);
    StopSame(t, i + 1, e, m, j + 1);
    assert m[(j + 1) + (e - (i + 1))] == t[e];
    TranscodeFits(m, j + 1);
    k := j + (e + 1 - i);
  }

  // ---------- Values ----------

  lemma WordAligned(t: seq<byte>, i: nat, m: seq<byte>, j: nat, f: seq<byte>)
    requires Aligned(t, i, m, j) && HasAt(t, i, f)
    requires f == NULL_TEXT || f == FALSE_TEXT || f == TRUE_TEXT
    ensures HasAt(m, j, f) && Aligned(t, i + |f|, m, j + |f|)
  {
    hide HasAt, Leaves, IsPlain, Aligned;
    PlainWord(f);
    PlainLeaves(t, i, f);
    AlignedLeaves(t, i, m, j, |f|, f);
  }

  lemma NumberAligned(t: seq<byte>, i: nat, m: seq<byte>, j: nat) returns (k: nat)
    requires Aligned(t, i, m, j) && i < NumberEnd(t, i) && Closes(At(t, Skip(t, NumberEnd(t, i))))
    ensures j < k && At(m, j) == At(t, i)
    ensures NumberEnd(m, j) == k && NumberValue(m, j) == NumberValue(t, i) && Aligned(t, NumberEnd(t, i), m, k)
  {
    hide Minified, Leaves, NumberValue, NumberEnd, IsPlain, Ender;
    var e := NumberEnd(t, i);
    NumberPlain(t, i);
    assert HasAt(t, i, t[i..e]);
    PlainLeaves(t, i, t[i..e]);
    AlignedLeaves(t, i, m, j, e - i, t[i..e]);
    HasAtByte(m, j, t[i..e], 0);
    k := j + (e - i);
    EnderAt(t, e, m, k);
    HasAtSame(t, i, e, m, j);
    NumberSame(t, i, m, j);
  }

  /** Nothing that is read starts with a slash. */
  lemma ReadStart(t: seq<byte>, i: nat)
    requires i <= |t|
    ensures ParseValue(t, i).Ok? ==> At(t, i) != SLASH
    ensures ParseItems(t, i).Ok? ==> At(t, i) != SLASH
    ensures ParseMembers(t, i).Ok? ==> At(t, i) == QUOTE
  {
    hide Skip, NumberEnd, NumberValue;
    FirstOf(t, i, NULL_TEXT);
    FirstOf(t, i, FALSE_TEXT);
    FirstOf(t, i, TRUE_TEXT);
  }

  /** What starts differently is no word. */
  lemma SameStart(t: seq<byte>, i: nat, m: seq<byte>, j: nat)
    requires At(m, j) == At(t, i)
    requires At(t, i) == MINUS || IsDigit(At(t, i)) || At(t, i) == QUOTE || At(t, i) == LBRACKET || At(t, i) == LBRACE
    ensures !HasAt(t, i, NULL_TEXT) && !HasAt(t, i, FALSE_TEXT) && !HasAt(t, i, TRUE_TEXT)
    ensures !HasAt(m, j, NULL_TEXT) && !HasAt(m, j, FALSE_TEXT) && !HasAt(m, j, TRUE_TEXT)
  {
    NotAWord(t, i);
    NotAWord(m, j);
  }

  lemma {:induction false} ValueAligned(t: seq<byte>, i: nat, m: seq<byte>, j: nat) returns (k: nat)
    requires Aligned(t, i, m, j) && ParseValue(t, i).Ok? && Closes(At(t, Skip(t, ParseValue(t, i).end)))
    requires ValueInStep(t, i)
    ensures j <= |m| && ParseValue(m, j) == Ok(ParseValue(t, i).value, k) && Aligned(t, ParseValue(t, i).end, m, k)
    decreases |t| - i, 1
  {
    hide Aligned, Skip, HasAt, NumberEnd, NumberValue, ParseString;
    InBounds(t, i, m, j);
    if HasAt(t, i, NULL_TEXT) {
      WordAligned(t, i, m, j, NULL_TEXT);
      k := j + 4;
    } else if HasAt(t, i, FALSE_TEXT) {
      WordAligned(t, i, m, j, FALSE_TEXT);
      NotNull(m, j);
      k := j + 5;
    } else if HasAt(t, i, TRUE_TEXT) {
      WordAligned(t, i, m, j, TRUE_TEXT);
      NotNull(m, j);
      k := j + 4;
    } else if At(t, i) == QUOTE {
      k := StringAligned(t, i, m, j);
      ReadQuote(m, j);
      SameStart(t, i, m, j);
    } else if At(t, i) == MINUS || IsDigit(At(t, i)) {
      k := NumberAligned(t, i, m, j);
      SameStart(t, i, m, j);
    } else if At(t, i) == LBRACKET {
      k := ArrayAligned(t, i, m, j);
    } else {
      k := ObjectAligned(t, i, m, j);
    }
  }

  lemma InBounds(t: seq<byte>, i: nat, m: seq<byte>, j: nat)
    requires Aligned(t, i, m, j)
    ensures i <= |t| && j <= |m|
  {
    hide Minified;
  }

  lemma ReadQuote(t: seq<byte>, i: nat)
    requires i <= |t| && ParseString(t, i).Ok?
    ensures At(t, i) == QUOTE
  {
    hide Pieces;
  }

  lemma {:induction false} ArrayAligned(t: seq<byte>, i: nat, m: seq<byte>, j: nat) returns (k: nat)
    requires Aligned(t, i, m, j) && At(t, i) == LBRACKET && ParseValue(t, i).Ok? && ValueInStep(t, i)
    ensures j <= |m| && ParseValue(m, j) == Ok(ParseValue(t, i).value, k) && Aligned(t, ParseValue(t, i).end, m, k)
    decreases |t| - i, 0
  {
    hide Aligned, Skip, HasAt, ParseItems;
    AlignedByte(t, i, m, j);
    SameStart(t, i, m, j);
    InBounds(t, i, m, j);
    var p := Skip(t, i + 1);
    ReadStart(t, p);
    SkipAligned(t, i + 1, m, j + 1);
    var q := Skip(m, j + 1);
    if At(t, p) == RBRACKET {
      AlignedByte(t, p, m, q);
      k := q + 1;
    } else {
      k := ItemsAligned(t, p, m, q);
    }
  }

  lemma {:induction false} ItemsAligned(t: seq<byte>, i: nat, m: seq<byte>, j: nat) returns (k: nat)
    requires Aligned(t, i, m, j) && i <= |t| && ParseItems(t, i).Ok? && ItemsInStep(t, i)
    ensures j <= |m| && ParseItems(m, j) == Ok(ParseItems(t, i).value, k) && Aligned(t, ParseItems(t, i).end, m, k)
    decreases |t| - i, 2
  {
    hide Aligned, Skip, HasAt, ParseValue;
    var e := ParseValue(t, i).end;
    var l := ValueAligned(t, i, m, j);
    SkipAligned(t, e, m, l);
    var p, q := Skip(t, e), Skip(m, l);
    AlignedByte(t, p, m, q);
    k := q + 1;
    if At(t, p) == COMMA {
      ReadStart(t, Skip(t, p + 1));
      SkipAligned(t, p + 1, m, q + 1);
      k := ItemsAligned(t, Skip(t, p + 1), m, Skip(m, q + 1));
    }
  }

  lemma {:induction false} ObjectAligned(t: seq<byte>, i: nat, m: seq<byte>, j: nat) returns (k: nat)
    requires Aligned(t, i, m, j) && At(t, i) == LBRACE && ParseValue(t, i).Ok? && ValueInStep(t, i)
    ensures j <= |m| && ParseValue(m, j) == Ok(ParseValue(t, i).value, k) && Aligned(t, ParseValue(t, i).end, m, k)
    decreases |t| - i, 0
  {
    hide Aligned, Skip, HasAt, ParseMembers;
    AlignedByte(t, i, m, j);
    SameStart(t, i, m, j);
    InBounds(t, i, m, j);
    var p := Skip(t, i + 1);
    ReadStart(t, p);
    SkipAligned(t, i + 1, m, j + 1);
    var q := Skip(m, j + 1);
    if At(t, p) == RBRACE {
      AlignedByte(t, p, m, q);
      k := q + 1;
    } else {
      k := MembersAligned(t, p, m, q);
    }
  }

  /** The name of a member and its colon, at d, and the start of its value. */
  lemma NameAligned(t: seq<byte>, i: nat, m: seq<byte>, j: nat) returns (d: nat)
    requires Aligned(t, i, m, j) && i <= |t| && ParseMembers(t, i).Ok? && MembersInStep(t, i)
    ensures j <= |m| && ParseString(m, j).Ok? && ParseString(m, j).value == ParseString(t, i).value
    ensures d == Skip(m, ParseString(m, j).end) && At(m, d) == COLON && d < |m|
    ensures var c := Skip(t, ParseString(t, i).end);
            c < |t| && Aligned(t, Skip(t, c + 1), m, Skip(m, d + 1))
  {
    hide Aligned, Skip, HasAt, ParseValue, ParseString, MembersInStep, ValueInStep;
    MembersUnfold(t, i);
    var e := ParseString(t, i).end;
    var l := StringAligned(t, i, m, j);
    SkipAligned(t, e, m, l);
    d := Skip(m, l);
    AlignedByte(t, Skip(t, e), m, d);
    ReadStart(t, Skip(t, Skip(t, e) + 1));
    SkipAligned(t, Skip(t, e) + 1, m, d + 1);
  }

  /** The parts of a list of members are in step if the list is. */
  lemma MembersUnfold(t: seq<byte>, i: nat)
    requires i <= |t| && ParseMembers(t, i).Ok? && MembersInStep(t, i)
    ensures InStep(t, i + 1) && ParseString(t, i).Ok?
    ensures var a := Skip(t, Skip(t, ParseString(t, i).end) + 1);
            && ValueInStep(t, a)
            && var p := Skip(t, ParseValue(t, a).end);
               At(t, p) == COMMA ==> MembersInStep(t, Skip(t, p + 1))
  {
    hide Skip, ParseValue, ParseString, InStep, ValueInStep;
  }

  lemma {:induction false} MembersAligned(t: seq<byte>, i: nat, m: seq<byte>, j: nat) returns (k: nat)
    requires Aligned(t, i, m, j) && i <= |t| && ParseMembers(t, i).Ok? && MembersInStep(t, i)
    ensures j <= |m| && ParseMembers(m, j) == Ok(ParseMembers(t, i).value, k)
    ensures Aligned(t, ParseMembers(t, i).end, m, k)
    decreases |t| - i, 2
  {
    hide Aligned, Skip, HasAt, ParseValue, ParseString, MembersInStep, ValueInStep, InStep;
    MembersUnfold(t, i);
    var d := NameAligned(t, i, m, j);
    var a, b := Skip(t, Skip(t, ParseString(t, i).end) + 1), Skip(m, d + 1);
    var e := ParseValue(t, a).end;
    var l := ValueAligned(t, a, m, b);
    SkipAligned(t, e, m, l);
    var p, q := Skip(t, e), Skip(m, l);
    AlignedByte(t, p, m, q);
    k := q + 1;
    if At(t, p) == COMMA {
      ReadStart(t, Skip(t, p + 1));
      SkipAligned(t, p + 1, m, q + 1);
      k := MembersAligned(t, Skip(t, p + 1), m, Skip(m, q + 1));
    }
  }

  /**
   A text that is parsed as a whole is parsed as the same value after cJSON_Minify, wherever blanks and control
   characters stand in it, if the two passes of the parser are in step on each string that it reads.
   */
  lemma MinifyKeepsValue(t: seq<byte>, v: Value, e: nat, m: seq<byte>)
    requires Parse(t, true) == Ok(v, e) && Minified(t, 0) == Left(m) && ValueInStep(t, Skip(t, 0))
    ensures Parse(m, true) == Ok(v, |m|)
  {
    hide Minified, Skip, ParseValue;
    assert m[0..] == m;
    ReadStart(t, Skip(t, 0));
    SkipAligned(t, 0, m, 0);
    var end := ParseValue(t, Skip(t, 0)).end;
    var k := ValueAligned(t, Skip(t, 0), m, Skip(m, 0));
    SkipAligned(t, end, m, k);
    AlignedEnd(t, Skip(t, end), m, Skip(m, k));
  }

  /** "\u" "xA" */
  const SPACED: seq<byte> := [QUOTE, BACKSLASH, LETTER_U, QUOTE, SPACE, QUOTE, 120, 65, QUOTE]

  /** "\u""xA" */
  const UNSPACED: seq<byte> := [QUOTE, BACKSLASH, LETTER_U, QUOTE, QUOTE, 120, 65, QUOTE]

  lemma SpacedString()
    ensures ParseString(SPACED, 0) == Ok([65], 9)
  {
    var t, ps := SPACED, [Unit(0), Byte(65)];
    assert Pieces(t, 7) == Before(Byte(65), Pieces(t, 8)) && [Byte(65)] + [] == [Byte(65)];
    assert Pieces(t, 1) == Before(Unit(0), Pieces(t, 7)) && [Unit(0)] + [Byte(65)] == ps;
    assert ps[1..] == [Byte(65)] && Transcode(ps[1..]) == [65] + Transcode([]) == [65];
    assert Transcode(ps) == Alone(0) + Transcode(ps[1..]) == [65];
    assert StringStop(t, 1) == StringStop(t, 3) == 3 && Count(t, 1) == 1 + Count(t, 3) == 1;
  }

  lemma UnspacedString()
    ensures ParseString(UNSPACED, 0) == Ok([], 8)
  {
    var m, ps := UNSPACED, [Unit(0)];
    assert Pieces(m, 1) == Before(Unit(0), Pieces(m, 7)) && [Unit(0)] + [] == ps;
    assert Transcode(ps) == Alone(0) + Transcode([]) == [];
    assert StringStop(m, 1) == StringStop(m, 3) == 3;
  }

  lemma SpacedMinified()
    ensures Minified(SPACED, 0) == Left(UNSPACED)
  {
    var t := SPACED;
    assert StringStop(t, 1) == StringStop(t, 3) == 3 && StringStop(t, 6) == StringStop(t, 8) == 8;
    assert t[5..9] == [QUOTE, 120, 65, QUOTE] && t[0..4] == [QUOTE, BACKSLASH, LETTER_U, QUOTE];
    assert Minified(t, 5) == Prepend(t[5..9], Minified(t, 9)) == Left(t[5..9]);
    assert Minified(t, 4) == Minified(t, 5);
    assert Minified(t, 0) == Prepend(t[0..4], Minified(t, 4)) == Left(t[0..4] + t[5..9]);
    assert t[0..4] + t[5..9] == UNSPACED;
  }

  /**
   If they do not, the value may change: the parser takes the quotes behind the escape to be its digits, and without the
   blank one letter less is left for the string.
   */
  lemma MinifyChangesExample()
    ensures Parse(SPACED, true) == Ok(Str([65]), 9) && Minified(SPACED, 0) == Left(UNSPACED)
    ensures Parse(UNSPACED, true) == Ok(Str([]), 8)
  {
    hide ParseString, Minified;
    SpacedString();
    UnspacedString();
    SpacedMinified();
  }

  /** It need not: this text is out of step as well, and Minify leaves it as it is. */
  lemma OutOfStepExample()
    ensures !ValueInStep(UNSPACED, 0) && Minified(UNSPACED, 0) == Left(UNSPACED)
  {
    var m := UNSPACED;
    assert StringStop(m, 1) == StringStop(m, 3) == 3 && StringStop(m, 5) == StringStop(m, 7) == 7;
    assert Pieces(m, 1) == Before(Unit(0), Pieces(m, 7));
    assert Minified(m, 4) == Prepend(m[4..8], Minified(m, 8)) == Left(m[4..8]);
    assert Minified(m, 0) == Prepend(m[0..4], Minified(m, 4)) == Left(m[0..4] + m[4..8]);
    assert m[0..4] + m[4..8] == m;
  }
}
