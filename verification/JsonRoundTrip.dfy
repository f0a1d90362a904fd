/** Parsing undoes printing: the same value comes back, and the parser stops where the printed text ends. */
module JsonRoundTrip {
  import opened Bytes
  import opened JsonText
  import opened JsonEscapes

  // ---------- Numbers ----------

  lemma {:induction false} DigitsAreDigits(n: nat)
    ensures forall k :: 0 <= k < |Digits(n)| ==> IsDigit(Digits(n)[k])
    ensures Digits(n)[0] == ZERO <==> n == 0
    ensures n == 0 ==> |Digits(n)| == 1
    decreases n
  {
    if n >= 10 {
      DigitsAreDigits(n / 10);
    }
  }

  lemma OneMoreDigit(t: seq<byte>, i: nat, j: nat)
    requires i <= j < |t| && IsDigit(t[j]) && forall k :: i <= k < j ==> IsDigit(t[k])
    ensures DigitsValue(t, i, j + 1) == 10 * DigitsValue(t, i, j) + DigitOf(t[j])
  {
  }

  lemma {:induction false} DigitsParse(t: seq<byte>, i: nat, n: nat)
    requires HasAt(t, i, Digits(n))
    ensures forall k :: i <= k < i + |Digits(n)| ==> IsDigit(t[k])
    ensures DigitsValue(t, i, i + |Digits(n)|) == n
    decreases n
  {
    hide HasAt;
    var j := i + |Digits(n)|;
    if n < 10 {
      HasAtByte(t, i, Digits(n), 0);
      assert DigitsValue(t, i, i) == 0;
    } else {
      var m, last := n / 10, n % 10;
      HasAtSplit(t, i, Digits(m), [ZERO + last]);
      DigitsParse(t, i, m);
      HasAtByte(t, j - 1, [ZERO + last], 0);
      assert n == 10 * m + last;
      OneMoreDigit(t, i, j - 1);
    }
  }

  lemma {:induction false} DigitsEndAt(t: seq<byte>, i: nat, j: nat)
    requires i <= j <= |t| && forall k :: i <= k < j ==> IsDigit(t[k])
    ensures DigitsEnd(t, i) == DigitsEnd(t, j)
    decreases j - i
  {
    if i < j {
      DigitsEndAt(t, i + 1, j);
    }
  }

  /** What follows at j would be read as part of the number n. */
  predicate Extends(n: int, t: seq<byte>, j: nat) {
    || (IsDigit(At(t, j)) && (n == 0 ==> At(t, j) != ZERO))
    || HasFraction(t, j)
    || HasExponent(t, j)
  }

  /** Digits of a positive number, or a lone zero. */
  lemma DigitsAsNumber(t: seq<byte>, i: nat, n: nat)
    requires HasAt(t, i, Digits(n))
    ensures var j := i + |Digits(n)|;
            && j <= |t| && IsDigit(At(t, i)) && (At(t, i) == ZERO <==> n == 0)
            && (n == 0 ==> j == i + 1)
            && (forall k :: i <= k < j ==> IsDigit(t[k])) && DigitsValue(t, i, j) == n
            && DigitsEnd(t, i) == DigitsEnd(t, j)
  {
    hide DigitsValue, DigitsEnd, Digits;
    var j := i + |Digits(n)|;
    DigitsAreDigits(n);
    DigitsParse(t, i, n);
    HasAtByte(t, i, Digits(n), 0);
    DigitsEndAt(t, i, j);
  }

  lemma NumberRoundTrip(t: seq<byte>, i: nat, n: int)
    requires HasAt(t, i, PrintInt(n))
    ensures var j := i + |PrintInt(n)|;
            && j <= |t|
            && (At(t, i) == MINUS || IsDigit(At(t, i)))
            && (if Extends(n, t, j) then NumberEnd(t, i) > j
                else NumberEnd(t, i) == j && NumberValue(t, i) == n as real)
  {
    hide HasAt, Digits, DigitsValue, DigitsEnd, Pow10;
    var m: nat := if n < 0 then -n else n;
    var a := if n < 0 then i + 1 else i;
    if n < 0 {
      HasAtSplit(t, i, [MINUS], Digits(m));
      HasAtByte(t, i, [MINUS], 0);
    }
    DigitsAsNumber(t, a, m);
    var j := i + |PrintInt(n)|;
    NoDigits(t, j);
    if !IsDigit(At(t, j)) {
      NotFurther(t, j);
      assert IntEnd(t, i) == j;
      IntegerValue(t, i, j, m);
    } else if n == 0 && At(t, j) == ZERO {
      assert IntEnd(t, i) == j;
      IntegerValue(t, i, j, m);
    } else {
      Further(t, j);
    }
  }

  lemma NoDigits(t: seq<byte>, j: nat)
    requires j <= |t|
    ensures DigitsValue(t, j, j) == 0
  {
  }

  lemma Further(t: seq<byte>, j: nat)
    requires j <= |t| && IsDigit(At(t, j))
    ensures DigitsEnd(t, j) > j
  {
  }

  lemma NotFurther(t: seq<byte>, j: nat)
    requires j <= |t| && !IsDigit(At(t, j))
    ensures DigitsEnd(t, j) == j
  {
  }

  /** A number whose integer part ends at j. */
  lemma IntegerValue(t: seq<byte>, i: nat, j: nat, m: nat)
    requires i <= j <= |t| && IntEnd(t, i) == j
    requires IntStart(t, i) <= j && DigitsValue(t, IntStart(t, i), j) == m
    ensures HasFraction(t, j) || HasExponent(t, j) ==> NumberEnd(t, i) > j
    ensures !HasFraction(t, j) && !HasExponent(t, j) ==>
              NumberEnd(t, i) == j && NumberValue(t, i) == (if At(t, i) == MINUS then -(m as real) else m as real)
  {
    hide DigitsValue, IntEnd, IntStart;
    if HasFraction(t, j) {
      Further(t, j + 1);
    }
  }

  // ---------- Strings ----------

  /** What the printed form of a byte is read as. */
  function PieceOf(c: byte): Piece {
    if c > 31 || c == 8 || c == 12 || c == 10 || c == 13 || c == 9 then Byte(c) else Unit(c)
  }

  function PiecesOf(s: seq<byte>): seq<Piece> {
    if s == [] then [] else [PieceOf(s[0])] + PiecesOf(s[1..])
  }

  lemma HexDigitValue(n: nat)
    requires n < 16
    ensures IsHex(HexDigit(n)) && HexValue(HexDigit(n)) == n
  {
  }

  lemma EscapeIsPiece(t: seq<byte>, p: nat, c: byte)
    requires c != 0 && HasAt(t, p, EscapeByte(c))
    ensures p + |EscapeByte(c)| <= |t|
    ensures Pieces(t, p) == Before(PieceOf(c), Pieces(t, p + |EscapeByte(c)|))
  {
    hide HasAt, HexDigit, HexValue;
    var e := EscapeByte(c);
    assert p + |e| <= |t| by { HasAtInside(t, p, e); }
    HasAtByte(t, p, e, 0);
    if |e| > 1 {
      HasAtByte(t, p, e, 1);
    }
    if |e| == 6 {
      HasAtByte(t, p, e, 2);
      HasAtByte(t, p, e, 3);
      HasAtByte(t, p, e, 4);
      HasAtByte(t, p, e, 5);
      HexDigitValue(0);
      HexDigitValue(c / 16);
      HexDigitValue(c % 16);
      assert ZERO == HexDigit(0) by { ZeroIsHex(); }
      assert Hex4(t, p + 2) == c;
    }
  }

  lemma ZeroIsHex()
    ensures HexDigit(0) == ZERO
  {
  }

  lemma HasAtInside(t: seq<byte>, p: nat, f: seq<byte>)
    requires HasAt(t, p, f)
    ensures p + |f| <= |t|
  {
  }

  lemma {:induction false} EscapeIsPieces(t: seq<byte>, p: nat, s: seq<byte>)
    requires NulFree(s) && HasAt(t, p, Escape(s) + [QUOTE])
    ensures p <= |t| && Pieces(t, p) == Ok(PiecesOf(s), p + |Escape(s)|)
    decreases |s|
  {
    hide HasAt, EscapeByte, PieceOf, Pieces;
    HasAtInside(t, p, Escape(s) + [QUOTE]);
    if s == [] {
      assert Escape(s) + [QUOTE] == [QUOTE];
      HasAtByte(t, p, [QUOTE], 0);
      QuoteEnds(t, p);
    } else {
      var rest := Escape(s[1..]) + [QUOTE];
      assert Escape(s) + [QUOTE] == EscapeByte(s[0]) + rest;
      HasAtSplit(t, p, EscapeByte(s[0]), rest);
      EscapeIsPiece(t, p, s[0]);
      EscapeIsPieces(t, p + |EscapeByte(s[0])|, s[1..]);
    }
  }

  lemma QuoteEnds(t: seq<byte>, p: nat)
    requires p <= |t| && At(t, p) == QUOTE
    ensures Pieces(t, p) == Ok([], p)
  {
  }

  lemma {:induction false} PiecesMeanString(s: seq<byte>)
    requires NulFree(s)
    ensures Transcode(PiecesOf(s)) == s
    decreases |s|
  {
    hide Utf8, Utf16.Join;
    if s != [] {
      PiecesMeanString(s[1..]);
      var ps := PiecesOf(s);
      assert ps[1..] == PiecesOf(s[1..]);
      if ps[0].Unit? {
        SmallUnit(s[0]);
      }
    }
  }

  lemma SmallUnit(c: byte)
    requires 0 < c < 0x80
    ensures Alone(c) == [c]
  {
  }

  lemma EscapeByteStops(t: seq<byte>, p: nat, c: byte)
    requires c != 0 && HasAt(t, p, EscapeByte(c))
    ensures StringStop(t, p) == StringStop(t, p + |EscapeByte(c)|)
  {
    hide HasAt;
    var e := EscapeByte(c);
    HasAtByte(t, p, e, 0);
    if |e| > 1 {
      HasAtByte(t, p, e, 1);
    }
    if |e| == 6 {
      HasAtByte(t, p, e, 2);
      HasAtByte(t, p, e, 3);
      HasAtByte(t, p, e, 4);
      HasAtByte(t, p, e, 5);
      assert StringStop(t, p + 2) == StringStop(t, p + 4);
    }
  }

  lemma {:induction false} EscapeStops(t: seq<byte>, p: nat, s: seq<byte>)
    requires NulFree(s) && HasAt(t, p, Escape(s) + [QUOTE])
    ensures StringStop(t, p) == p + |Escape(s)| && At(t, p + |Escape(s)|) == QUOTE
    decreases |s|
  {
    hide HasAt, EscapeByte;
    if s == [] {
      assert Escape(s) + [QUOTE] == [QUOTE];
      HasAtByte(t, p, [QUOTE], 0);
    } else {
      var rest := Escape(s[1..]) + [QUOTE];
      assert Escape(s) + [QUOTE] == EscapeByte(s[0]) + rest;
      HasAtSplit(t, p, EscapeByte(s[0]), rest);
      EscapeByteStops(t, p, s[0]);
      EscapeStops(t, p + |EscapeByte(s[0])|, s[1..]);
    }
  }

  lemma StringRoundTrip(t: seq<byte>, i: nat, s: seq<byte>)
    requires NulFree(s) && HasAt(t, i, PrintString(s))
    ensures i <= |t| && ParseString(t, i) == Ok(s, i + |PrintString(s)|)
  {
    hide HasAt, Pieces, Transcode, Escape, StringStop, Contained;
    assert PrintString(s) == [QUOTE] + (Escape(s) + [QUOTE]);
    HasAtSplit(t, i, [QUOTE], Escape(s) + [QUOTE]);
    HasAtByte(t, i, [QUOTE], 0);
    HasAtInside(t, i, PrintString(s));
    EscapeIsPieces(t, i + 1, s);
    EscapeStops(t, i + 1, s);
    TranscodeFits(t, i + 1);
    PiecesMeanString(s);
  }

  // ---------- Blanks ----------

  lemma NoSkip(t: seq<byte>, i: nat)
    requires i <= |t| && !(0 < At(t, i) <= SPACE)
    ensures Skip(t, i) == i
  {
  }

  predicate Blank(s: seq<byte>) {
    forall k :: 0 <= k < |s| ==> 0 < s[k] <= SPACE
  }

  lemma {:induction false} SkipBlank(t: seq<byte>, i: nat, s: seq<byte>)
    requires HasAt(t, i, s) && Blank(s)
    ensures i + |s| <= |t| && Skip(t, i) == Skip(t, i + |s|)
    decreases |s|
  {
    if s != [] {
      assert s == [s[0]] + s[1..];
      HasAtSplit(t, i, [s[0]], s[1..]);
      HasAtByte(t, i, s, 0);
      SkipBlank(t, i + 1, s[1..]);
    }
  }

  // ---------- Values ----------

  /** No value starts with a blank or with a bracket that closes. */
  lemma ValueStart(v: Value, depth: nat, fmt: bool)
    requires ValueOk(v)
    ensures PrintValue(v, depth, fmt) != []
    ensures PrintValue(v, depth, fmt)[0] > SPACE && PrintValue(v, depth, fmt)[0] != RBRACKET
  {
    hide PrintItems, PrintMembers, Escape;
    if v.Number? {
      var n := v.d.Floor;
      DigitsAreDigits(if n < 0 then -n else n);
    }
  }

  /** Blanks and then something else. */
  lemma AfterBlank(t: seq<byte>, i: nat, s: seq<byte>, f: seq<byte>)
    requires HasAt(t, i, s + f) && Blank(s) && f != [] && f[0] > SPACE
    ensures i + |s| < |t| && Skip(t, i) == i + |s| && HasAt(t, i + |s|, f) && At(t, i + |s|) == f[0]
  {
    HasAtSplit(t, i, s, f);
    SkipBlank(t, i, s);
    HasAtByte(t, i + |s|, f, 0);
    NoSkip(t, i + |s|);
  }

  /** A number does not run into what follows it inside an array or object. */
  predicate Separates(c: byte) {
    c == COMMA || c == RBRACKET || c == RBRACE || c == NEWLINE
  }

  lemma ItemsStart(items: Items, depth: nat, fmt: bool)
    requires ItemsOk(items) && items.Item?
    ensures PrintItems(items, depth, fmt) != []
    ensures PrintItems(items, depth, fmt)[0] > SPACE && PrintItems(items, depth, fmt)[0] != RBRACKET
  {
    hide PrintValue;
    ValueStart(items.value, depth, fmt);
  }

  /** Anything but an array or object. */
  lemma LeafRoundTrip(t: seq<byte>, i: nat, v: Value, depth: nat, fmt: bool)
    requires ValueOk(v) && !v.Arr? && !v.Obj? && HasAt(t, i, PrintValue(v, depth, fmt))
    ensures var j := i + |PrintValue(v, depth, fmt)|;
            && j <= |t|
            && (ParseValue(t, i) == Ok(v, j) <==> (v.Number? ==> !Extends(v.d.Floor, t, j)))
  {
    hide ParseString, NumberEnd, NumberValue, PrintString, PrintInt, Extends;
    ValueStart(v, depth, fmt);
    HasAtByte(t, i, PrintValue(v, depth, fmt), 0);
    if v.Number? {
      NumberRoundTrip(t, i, v.d.Floor);
      NotAWord(t, i);
    } else if v.Str? {
      StringRoundTrip(t, i, v.s);
      assert PrintString(v.s)[0] == QUOTE by { StartsWithQuote(v.s); }
      NotAWord(t, i);
    } else if v.False? {
      NotNull(t, i);
    } else if v.True? {
      NotNull(t, i);
    }
  }

  lemma StartsWithQuote(s: seq<byte>)
    ensures PrintString(s)[0] == QUOTE
  {
  }

  lemma FirstOf(t: seq<byte>, i: nat, f: seq<byte>)
    requires f != []
    ensures HasAt(t, i, f) ==> At(t, i) == f[0]
  {
    if HasAt(t, i, f) {
      HasAtByte(t, i, f, 0);
    }
  }

  /** The words start with different letters. */
  lemma NotNull(t: seq<byte>, i: nat)
    requires HasAt(t, i, FALSE_TEXT) || HasAt(t, i, TRUE_TEXT)
    ensures !HasAt(t, i, NULL_TEXT)
    ensures HasAt(t, i, TRUE_TEXT) ==> !HasAt(t, i, FALSE_TEXT)
  {
    hide HasAt;
    FirstOf(t, i, NULL_TEXT);
    FirstOf(t, i, FALSE_TEXT);
    FirstOf(t, i, TRUE_TEXT);
  }

  lemma NotAWord(t: seq<byte>, i: nat)
    requires At(t, i) != NULL_TEXT[0] && At(t, i) != FALSE_TEXT[0] && At(t, i) != TRUE_TEXT[0]
    ensures !HasAt(t, i, NULL_TEXT) && !HasAt(t, i, FALSE_TEXT) && !HasAt(t, i, TRUE_TEXT)
  {
    hide HasAt;
    FirstOf(t, i, NULL_TEXT);
    FirstOf(t, i, FALSE_TEXT);
    FirstOf(t, i, TRUE_TEXT);
  }

  /**
   Parsing undoes printing, formatted or not, whatever text follows: the parser gives back the value and
   stops at the end of its text, unless the value is a number and what follows would extend it.
   */
  lemma {:induction false} ValueRoundTrip(t: seq<byte>, i: nat, v: Value, depth: nat, fmt: bool)
    requires ValueOk(v) && HasAt(t, i, PrintValue(v, depth, fmt))
    ensures var j := i + |PrintValue(v, depth, fmt)|;
            && j <= |t|
            && (ParseValue(t, i) == Ok(v, j) <==> (v.Number? ==> !Extends(v.d.Floor, t, j)))
    decreases v, 1
  {
    hide HasAt, Skip, Extends;
    HasAtInside(t, i, PrintValue(v, depth, fmt));
    if v.Arr? {
      ArrayRoundTrip(t, i, v, depth, fmt);
    } else if v.Obj? {
      ObjectRoundTrip(t, i, v, depth, fmt);
    } else {
      LeafRoundTrip(t, i, v, depth, fmt);
    }
  }

  lemma {:induction false} ArrayRoundTrip(t: seq<byte>, i: nat, v: Value, depth: nat, fmt: bool)
    requires ValueOk(v) && v.Arr? && HasAt(t, i, PrintValue(v, depth, fmt))
    ensures i <= |t| && ParseValue(t, i) == Ok(v, i + |PrintValue(v, depth, fmt)|)
    decreases v, 0
  {
    hide HasAt, Skip, PrintItems;
    var body := PrintItems(v.items, depth + 1, fmt) + [RBRACKET];
    assert PrintValue(v, depth, fmt) == [LBRACKET] + body;
    HasAtSplit(t, i, [LBRACKET], body);
    HasAtByte(t, i, [LBRACKET], 0);
    NotAWord(t, i);
    if v.items.NoItems? {
      assert PrintItems(v.items, depth + 1, fmt) == [] by { NothingInside(depth + 1, fmt); }
      NoBlank(t, i + 1, body);
    } else {
      ItemsStart(v.items, depth + 1, fmt);
      NoBlank(t, i + 1, body);
      ItemsRoundTrip(t, i + 1, v.items, depth + 1, fmt);
    }
  }

  lemma NothingInside(depth: nat, fmt: bool)
    ensures PrintItems(NoItems, depth, fmt) == [] && PrintMembers(NoMembers, depth, fmt) == []
  {
  }

  /** What is between an item and the end of its array. */
  function AfterItem(rest: Items, depth: nat, fmt: bool): seq<byte>
    requires ItemsOk(rest)
  {
    if rest.NoItems? then [RBRACKET]
    else [COMMA] + (If(fmt, [SPACE]) + (PrintItems(rest, depth, fmt) + [RBRACKET]))
  }

  /** The text of the items from the first one on, up to the closing bracket. */
  lemma ItemsParts(items: Items, depth: nat, fmt: bool)
    requires ItemsOk(items) && items.Item?
    ensures PrintItems(items, depth, fmt) + [RBRACKET] ==
            PrintValue(items.value, depth, fmt) + AfterItem(items.rest, depth, fmt)
  {
    hide PrintValue, If;
    if items.rest.NoItems? {
      NothingInside(depth, fmt);
    }
  }

  lemma BlanksAreBlank(n: int, fmt: bool)
    ensures Blank(If(fmt, Tabs(n))) && Blank(If(fmt, [NEWLINE])) && Blank(If(fmt, [TAB])) && Blank(If(fmt, [SPACE]))
    ensures Blank([]) && Blank(If(fmt, [NEWLINE] + Tabs(n)))
  {
  }

  /** No blank, then something else. */
  lemma NoBlank(t: seq<byte>, i: nat, f: seq<byte>)
    requires HasAt(t, i, f) && f != [] && f[0] > SPACE
    ensures i < |t| && Skip(t, i) == i && At(t, i) == f[0]
  {
    HasAtByte(t, i, f, 0);
    NoSkip(t, i);
  }

  lemma NumberStops(v: Value, t: seq<byte>, j: nat)
    requires Separates(At(t, j))
    ensures v.Number? ==> !Extends(v.d.Floor, t, j)
  {
  }

  lemma {:induction false} ItemsRoundTrip(t: seq<byte>, i: nat, items: Items, depth: nat, fmt: bool)
    requires ItemsOk(items) && items.Item? && HasAt(t, i, PrintItems(items, depth, fmt) + [RBRACKET])
    ensures i <= |t| && ParseItems(t, i) == Ok(items, i + |PrintItems(items, depth, fmt)| + 1)
    decreases items
  {
    hide HasAt, Skip, PrintValue, ParseValue, PrintItems, If, Blank, Extends, AfterItem;
    var v, rest := items.value, items.rest;
    var p, after := PrintValue(v, depth, fmt), AfterItem(rest, depth, fmt);
    ItemsParts(items, depth, fmt);
    assert |PrintItems(items, depth, fmt)| + 1 == |p| + |after|;
    HasAtSplit(t, i, p, after);
    ItemEnd(t, i + |p|, rest, depth, fmt);
    NumberStops(v, t, i + |p|);
    ValueRoundTrip(t, i, v, depth, fmt);
    if rest.Item? {
      ItemsGoOn(t, i + |p|, rest, depth, fmt);
      ItemsRoundTrip(t, i + |p| + 1 + |If(fmt, [SPACE])|, rest, depth, fmt);
    }
  }

  /** What follows an item. */
  lemma ItemEnd(t: seq<byte>, e: nat, rest: Items, depth: nat, fmt: bool)
    requires ItemsOk(rest) && HasAt(t, e, AfterItem(rest, depth, fmt))
    ensures e < |t| && Skip(t, e) == e && At(t, e) == (if rest.NoItems? then RBRACKET else COMMA)
    ensures rest.NoItems? ==> |AfterItem(rest, depth, fmt)| == 1
  {
    hide HasAt, Skip, PrintItems;
    NoBlank(t, e, AfterItem(rest, depth, fmt));
  }

  /** From the comma to the next item. */
  lemma ItemsGoOn(t: seq<byte>, e: nat, rest: Items, depth: nat, fmt: bool)
    requires ItemsOk(rest) && rest.Item? && HasAt(t, e, AfterItem(rest, depth, fmt))
    ensures var gap, f := If(fmt, [SPACE]), PrintItems(rest, depth, fmt) + [RBRACKET];
            && e + 1 <= |t| && Skip(t, e + 1) == e + 1 + |gap| && HasAt(t, e + 1 + |gap|, f)
            && |AfterItem(rest, depth, fmt)| == 1 + |gap| + |f|
  {
    hide HasAt, Skip, PrintItems, If, Blank;
    var gap, f := If(fmt, [SPACE]), PrintItems(rest, depth, fmt) + [RBRACKET];
    HasAtSplit(t, e, [COMMA], gap + f);
    ItemsStart(rest, depth, fmt);
    BlanksAreBlank(0, fmt);
    AfterBlank(t, e + 1, gap, f);
  }

  lemma ObjectParts(v: Value, depth: nat, fmt: bool)
    requires ValueOk(v) && v.Obj?
    ensures v.members.NoMembers? ==>
              PrintValue(v, depth, fmt) == [LBRACE] + (If(fmt, [NEWLINE] + Tabs(depth - 1)) + [RBRACE])
    ensures v.members.Member? ==>
              PrintValue(v, depth, fmt) ==
              [LBRACE] + (If(fmt, [NEWLINE]) + (PrintMembers(v.members, depth + 1, fmt) + If(fmt, Tabs(depth)) + [RBRACE]))
  {
    hide PrintMembers, If;
  }

  lemma {:induction false} ObjectRoundTrip(t: seq<byte>, i: nat, v: Value, depth: nat, fmt: bool)
    requires ValueOk(v) && v.Obj? && HasAt(t, i, PrintValue(v, depth, fmt))
    ensures i <= |t| && ParseValue(t, i) == Ok(v, i + |PrintValue(v, depth, fmt)|)
    decreases v, 0
  {
    hide HasAt, Skip, PrintMembers, PrintValue, ParseMembers, If, Blank, Tabs;
    ObjectParts(v, depth, fmt);
    BlanksAreBlank(depth - 1, fmt);
    if v.members.NoMembers? {
      var blank := If(fmt, [NEWLINE] + Tabs(depth - 1));
      HasAtSplit(t, i, [LBRACE], blank + [RBRACE]);
      NoBlank(t, i, [LBRACE]);
      AfterBlank(t, i + 1, blank, [RBRACE]);
    } else {
      var nl := If(fmt, [NEWLINE]);
      var body := PrintMembers(v.members, depth + 1, fmt) + If(fmt, Tabs(depth)) + [RBRACE];
      HasAtSplit(t, i, [LBRACE], nl + body);
      NoBlank(t, i, [LBRACE]);
      HasAtSplit(t, i + 1, nl, body);
      SkipBlank(t, i + 1, nl);
      MembersRoundTrip(t, i + 1 + |nl|, v.members, depth + 1, fmt, depth);
    }
    NotAWord(t, i);
  }

  /** What is between the value of a member and the closing brace. */
  function AfterMember(others: Members, depth: nat, fmt: bool, d: nat): seq<byte>
    requires MembersOk(others)
  {
    (if others.NoMembers? then [] else [COMMA])
    + (If(fmt, [NEWLINE]) + (PrintMembers(others, depth, fmt) + If(fmt, Tabs(d)) + [RBRACE]))
  }

  lemma Regroup(a: seq<byte>, b: seq<byte>, c: seq<byte>, d: seq<byte>, e: seq<byte>)
    ensures a + b + c + d + e == a + (b + (c + (d + e)))
  {
    assert a + b + c + d == a + (b + (c + d));
  }

  lemma MembersParts(ms: Members, depth: nat, fmt: bool, d: nat)
    requires MembersOk(ms) && ms.Member?
    ensures PrintMembers(ms, depth, fmt) + If(fmt, Tabs(d)) + [RBRACE] ==
            If(fmt, Tabs(depth)) + (PrintString(ms.name) + ([COLON] + (If(fmt, [TAB])
            + (PrintValue(ms.value, depth, fmt) + AfterMember(ms.others, depth, fmt, d)))))
  {
    hide PrintValue, If, Tabs, PrintString;
    var tabs, n, gap, p := If(fmt, Tabs(depth)), PrintString(ms.name), If(fmt, [TAB]), PrintValue(ms.value, depth, fmt);
    var sep, nl, rest := if ms.others.NoMembers? then [] else [COMMA], If(fmt, [NEWLINE]), PrintMembers(ms.others, depth, fmt);
    var close := If(fmt, Tabs(d)) + [RBRACE];
    var front := tabs + n + [COLON] + gap;
    var after := AfterMember(ms.others, depth, fmt, d);
    assert after == sep + (nl + (rest + close)) by { assert rest + If(fmt, Tabs(d)) + [RBRACE] == rest + close; }
    assert PrintMembers(ms, depth, fmt) == front + p + sep + nl + rest;
    assert PrintMembers(ms, depth, fmt) + If(fmt, Tabs(d)) + [RBRACE] == front + p + sep + nl + rest + close;
    Regroup(front + p, sep, nl, rest, close);
    assert (front + p) + after == front + (p + after);
    Regroup(tabs, n, [COLON], gap, p + after);
  }

  /** The name and the colon of a member. */
  lemma MemberStart(t: seq<byte>, i: nat, name: seq<byte>, tabs: seq<byte>, gap: seq<byte>, f: seq<byte>)
    requires NulFree(name) && Blank(tabs) && Blank(gap) && f != [] && f[0] > SPACE
    requires HasAt(t, i, tabs + (PrintString(name) + ([COLON] + (gap + f))))
    ensures var a := i + |tabs|;
            var b := a + |PrintString(name)|;
            && b + 1 + |gap| < |t|
            && Skip(t, i) == a && At(t, a) == QUOTE && ParseString(t, a) == Ok(name, b)
            && Skip(t, b) == b && At(t, b) == COLON && Skip(t, b + 1) == b + 1 + |gap|
            && HasAt(t, b + 1 + |gap|, f)
  {
    hide HasAt, Skip, ParseString, PrintString, Blank;
    var n := PrintString(name);
    var a := i + |tabs|;
    StartsWithQuote(name);
    AfterBlank(t, i, tabs, n + ([COLON] + (gap + f)));
    HasAtSplit(t, a, n, [COLON] + (gap + f));
    StringRoundTrip(t, a, name);
    HasAtSplit(t, a + |n|, [COLON], gap + f);
    NoBlank(t, a + |n|, [COLON]);
    AfterBlank(t, a + |n| + 1, gap, f);
  }

  /** From the blanks before the first member; d tabs are before the closing brace. */
  lemma {:induction false} MembersRoundTrip(t: seq<byte>, i: nat, ms: Members, depth: nat, fmt: bool, d: nat)
    requires MembersOk(ms) && ms.Member?
    requires HasAt(t, i, PrintMembers(ms, depth, fmt) + If(fmt, Tabs(d)) + [RBRACE])
    ensures i <= |t| && At(t, Skip(t, i)) == QUOTE
    ensures ParseMembers(t, Skip(t, i)) == Ok(ms, i + |PrintMembers(ms, depth, fmt)| + |If(fmt, Tabs(d))| + 1)
    decreases ms
  {
    hide HasAt, Skip, PrintValue, ParseValue, ParseString, PrintString, PrintMembers, If, Tabs, Blank, AfterMember,
         Extends;
    var name, v, others := ms.name, ms.value, ms.others;
    var tabs, gap := If(fmt, Tabs(depth)), If(fmt, [TAB]);
    var p, after := PrintValue(v, depth, fmt), AfterMember(others, depth, fmt, d);
    MembersParts(ms, depth, fmt, d);
    ValueStart(v, depth, fmt);
    BlanksAreBlank(depth, fmt);
    MemberStart(t, i, name, tabs, gap, p + after);
    var c := i + |tabs| + |PrintString(name)| + 1 + |gap|;
    HasAtSplit(t, c, p, after);
    MemberEnd(t, c + |p|, others, depth, fmt, d);
    NumberStops(v, t, c + |p|);
    ValueRoundTrip(t, c, v, depth, fmt);
    if others.Member? {
      MembersGoOn(t, c + |p|, others, depth, fmt, d);
      MembersRoundTrip(t, c + |p| + 1 + |If(fmt, [NEWLINE])|, others, depth, fmt, d);
    }
  }

  /** From the comma to the next member. */
  lemma MembersGoOn(t: seq<byte>, e: nat, others: Members, depth: nat, fmt: bool, d: nat)
    requires MembersOk(others) && others.Member? && HasAt(t, e, AfterMember(others, depth, fmt, d))
    ensures var nl := If(fmt, [NEWLINE]);
            && e + 1 + |nl| <= |t| && Skip(t, e + 1) == Skip(t, e + 1 + |nl|)
            && HasAt(t, e + 1 + |nl|, PrintMembers(others, depth, fmt) + If(fmt, Tabs(d)) + [RBRACE])
            && |AfterMember(others, depth, fmt, d)| ==
               1 + |nl| + |PrintMembers(others, depth, fmt)| + |If(fmt, Tabs(d))| + 1
  {
    hide HasAt, Skip, PrintMembers, If, Tabs, Blank;
    var nl, f := If(fmt, [NEWLINE]), PrintMembers(others, depth, fmt) + If(fmt, Tabs(d)) + [RBRACE];
    HasAtSplit(t, e, [COMMA], nl + f);
    HasAtSplit(t, e + 1, nl, f);
    BlanksAreBlank(0, fmt);
    SkipBlank(t, e + 1, nl);
  }

  /** What follows the value of a member. */
  lemma MemberEnd(t: seq<byte>, e: nat, others: Members, depth: nat, fmt: bool, d: nat)
    requires MembersOk(others) && HasAt(t, e, AfterMember(others, depth, fmt, d))
    ensures e < |t| && Separates(At(t, e))
    ensures others.NoMembers? ==>
              && Skip(t, e) == e + |AfterMember(others, depth, fmt, d)| - 1
              && At(t, Skip(t, e)) == RBRACE
    ensures others.Member? ==> Skip(t, e) == e && At(t, e) == COMMA
  {
    hide HasAt, Skip, PrintMembers, Tabs, Blank;
    var f := AfterMember(others, depth, fmt, d);
    if others.NoMembers? {
      NothingInside(depth, fmt);
      var blank := If(fmt, [NEWLINE] + Tabs(d));
      assert f == blank + [RBRACE];
      BlanksAreBlank(d, fmt);
      AfterBlank(t, e, blank, [RBRACE]);
      HasAtByte(t, e, f, 0);
    } else {
      NoBlank(t, e, f);
    }
  }

  /** cJSON_Parse undoes cJSON_Print and cJSON_PrintUnformatted. */
  lemma PrintedTextParses(v: Value, fmt: bool, whole: bool)
    requires ValueOk(v)
    ensures Parse(PrintValue(v, 0, fmt), whole) == Ok(v, |PrintValue(v, 0, fmt)|)
  {
    hide PrintValue, ParseValue;
    var t := PrintValue(v, 0, fmt);
    ValueStart(v, 0, fmt);
    assert HasAt(t, 0, t);
    ValueRoundTrip(t, 0, v, 0, fmt);
  }

  /** Two values with the same text are the same value. */
  lemma PrintingIsInjective(v: Value, w: Value, fmt: bool)
    requires ValueOk(v) && ValueOk(w) && PrintValue(v, 0, fmt) == PrintValue(w, 0, fmt)
    ensures v == w
  {
    hide PrintValue, Parse;
    PrintedTextParses(v, fmt, true);
    PrintedTextParses(w, fmt, true);
  }
}
