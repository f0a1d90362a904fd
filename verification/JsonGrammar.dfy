/**
 The grammar of JSON texts (RFC 8259), written out with its bytes, and what its texts mean.  The parser reads every text
 of the grammar as that: all escapes, numbers with fraction and exponent, and blanks wherever they may stand.
 */
module JsonGrammar {
  import opened Bytes
  import opened JsonText
  import opened JsonEscapes
  import opened JsonRoundTrip

  // ---------- Strings (section 7 of RFC 8259) ----------

  /** A character as it is, a backslash and a letter, an escape with four digits, or one for each half of a pair. */
  datatype Char =
    | Plain(c: byte)
    | Short(x: byte)
    | Code(digits: seq<byte>)
    | Pair(high: seq<byte>, low: seq<byte>)

  predicate IsNibble(b: byte) {
    48 <= b <= 57 || 65 <= b <= 70 || 97 <= b <= 102
  }

  function Nibble(b: byte): (r: nat)
    requires IsNibble(b)
    ensures r < 16
  {
    if b <= 57 then b - 48 else if b <= 70 then b - 55 else b - 87
  }

  predicate FourDigits(ds: seq<byte>) {
    |ds| == 4 && IsNibble(ds[0]) && IsNibble(ds[1]) && IsNibble(ds[2]) && IsNibble(ds[3])
  }

  function FourValue(ds: seq<byte>): (r: nat)
    requires FourDigits(ds)
    ensures r < 65536
  {
    ((Nibble(ds[0]) * 16 + Nibble(ds[1])) * 16 + Nibble(ds[2])) * 16 + Nibble(ds[3])
  }

  /** Control characters may stand in a string as well: the parser asks for no more than this. */
  predicate CharOk(ch: Char) {
    match ch
    case Plain(c) => c != 0 && c != 34 && c != 92
    case Short(x) => x != 0 && x != 117
    case Code(ds) => FourDigits(ds) && !(55296 <= FourValue(ds) <= 57343)
    case Pair(high, low) =>
      && FourDigits(high) && 55296 <= FourValue(high) <= 56319
      && FourDigits(low) && 56320 <= FourValue(low) <= 57343
  }

  predicate CharsOk(cs: seq<Char>) {
    forall k :: 0 <= k < |cs| ==> CharOk(cs[k])
  }

  function CharText(ch: Char): seq<byte> {
    match ch
    case Plain(c) => [c]
    case Short(x) => [92, x]
    case Code(ds) => [92, 117] + ds
    case Pair(high, low) => [92, 117] + high + [92, 117] + low
  }

  /** Backspace, form feed, newline, return and tab; any other letter stands for itself; the code point zero for nothing. */
  function CharMeans(ch: Char): seq<byte>
    requires CharOk(ch)
  {
    match ch
    case Plain(c) => [c]
    case Short(x) =>
      [if x == 98 then 8 else if x == 102 then 12 else if x == 110 then 10 else if x == 114 then 13
       else if x == 116 then 9 else x]
    case Code(ds) => if FourValue(ds) == 0 then [] else Utf8(FourValue(ds))
    case Pair(high, low) => Utf8(65536 + (FourValue(high) - 55296) * 1024 + (FourValue(low) - 56320))
  }

  function CharsText(cs: seq<Char>): seq<byte> {
    if cs == [] then [] else CharText(cs[0]) + CharsText(cs[1..])
  }

  function CharsMean(cs: seq<Char>): seq<byte>
    requires CharsOk(cs)
  {
    if cs == [] then [] else CharMeans(cs[0]) + CharsMean(cs[1..])
  }

  /** The bytes of a code point: lead bits, then six bits each behind 10 (section 3 of RFC 3629). */
  lemma Utf8Bytes(c: nat)
    requires c < 1114112
    ensures c < 128 ==> Utf8(c) == [c]
    ensures 128 <= c < 2048 ==> Utf8Holds(Utf8(c), 192, 2) && c == (Utf8(c)[0] as int - 192) * 64 + Bits(Utf8(c)[1])
    ensures 2048 <= c < 65536 ==>
              && Utf8Holds(Utf8(c), 224, 3)
              && c == (Utf8(c)[0] as int - 224) * 4096 + Bits(Utf8(c)[1]) * 64 + Bits(Utf8(c)[2])
    ensures 65536 <= c ==>
              && Utf8Holds(Utf8(c), 240, 4)
              && c == (Utf8(c)[0] as int - 240) * 262144 + Bits(Utf8(c)[1]) * 4096 + Bits(Utf8(c)[2]) * 64
                      + Bits(Utf8(c)[3])
  {
    var x, y, z := c / 64, c / 4096, c / 262144;
    assert c == 64 * x + c % 64;
    assert y == x / 64 && x == 64 * y + x % 64;
    assert z == y / 64 && y == 64 * z + y % 64;
  }

  function Bits(b: byte): int {
    b as int - 128
  }

  /** So many bytes, the first with the lead bits and the others between 80 and BF (hexadecimal). */
  predicate Utf8Holds(u: seq<byte>, lead: byte, n: nat) {
    |u| == n && n > 0 && lead <= u[0] && forall k :: 0 < k < n ==> 128 <= u[k] <= 191
  }

  // ---------- Numbers (section 6) ----------

  datatype Exp = NoExp | Exp(mark: byte, sign: seq<byte>, digits: seq<byte>)

  /** A sign, digits, digits behind a point if there are any, and an exponent. */
  datatype Num = Num(negative: bool, whole: seq<byte>, fraction: seq<byte>, exp: Exp)

  predicate AllDigits(ds: seq<byte>) {
    forall k :: 0 <= k < |ds| ==> 48 <= ds[k] <= 57
  }

  predicate NumParts(n: Num) {
    && AllDigits(n.whole) && AllDigits(n.fraction)
    && (n.exp.Exp? ==>
          && (n.exp.mark == 69 || n.exp.mark == 101)
          && (n.exp.sign == [] || n.exp.sign == [43] || n.exp.sign == [45])
          && AllDigits(n.exp.digits))
  }

  predicate NumOk(n: Num) {
    && NumParts(n)
    && n.whole != [] && (|n.whole| > 1 ==> n.whole[0] != 48)
    && (n.exp.Exp? ==> n.exp.digits != [])
  }

  function ExpText(e: Exp): seq<byte> {
    if e.NoExp? then [] else [e.mark] + e.sign + e.digits
  }

  function FractionText(ds: seq<byte>): seq<byte> {
    if ds == [] then [] else [46] + ds
  }

  function SignText(negative: bool): seq<byte> {
    if negative then [45] else []
  }

  function NumText(n: Num): seq<byte> {
    SignText(n.negative) + n.whole + FractionText(n.fraction) + ExpText(n.exp)
  }

  /** The value of decimal digits. */
  function Decimal(ds: seq<byte>): nat
    requires AllDigits(ds)
  {
    if ds == [] then 0 else 10 * Decimal(ds[..|ds| - 1]) + (ds[|ds| - 1] - 48)
  }

  function Ten(n: nat): (r: real)
    ensures r > 0.0
  {
    if n == 0 then 1.0 else 10.0 * Ten(n - 1)
  }

  function ExpMeans(e: Exp): real
    requires e.Exp? ==> AllDigits(e.digits)
  {
    if e.NoExp? then 1.0 else if e.sign == [45] then 1.0 / Ten(Decimal(e.digits)) else Ten(Decimal(e.digits))
  }

  function NumMeans(n: Num): real
    requires NumParts(n)
  {
    var x := (Decimal(n.whole) as real + Decimal(n.fraction) as real / Ten(|n.fraction|)) * ExpMeans(n.exp);
    if n.negative then -x else x
  }

  // ---------- Values (sections 2 to 5) ----------

  datatype Doc =
    | DNull
    | DFalse
    | DTrue
    | DNumber(n: Num)
    | DString(cs: seq<Char>)
    | DArray(pad: seq<byte>, elems: Elems)
    | DObject(pad: seq<byte>, fields: Fields)

  /** A value, blanks behind it, and if more follow a comma and blanks. */
  datatype Elems = NoElems | Elem(doc: Doc, after: seq<byte>, before: seq<byte>, rest: Elems)

  /** A name, blanks, a colon, blanks, and then as in an array. */
  datatype Fields =
    | NoFields
    | Field(name: seq<Char>, gap: seq<byte>, pad: seq<byte>, doc: Doc, after: seq<byte>, before: seq<byte>, rest: Fields)

  /** Blanks; the parser takes all control characters for blanks. */
  predicate Blanks(ws: seq<byte>) {
    forall k :: 0 <= k < |ws| ==> 1 <= ws[k] <= 32
  }

  predicate DocOk(doc: Doc) {
    match doc
    case DNumber(n) => NumOk(n)
    case DString(cs) => CharsOk(cs)
    case DArray(pad, elems) => Blanks(pad) && ElemsOk(elems)
    case DObject(pad, fields) => Blanks(pad) && FieldsOk(fields)
    case _ => true
  }

  predicate ElemsOk(es: Elems) {
    es.Elem? ==> DocOk(es.doc) && Blanks(es.after) && Blanks(es.before) && ElemsOk(es.rest)
  }

  predicate FieldsOk(fs: Fields) {
    fs.Field? ==>
      && CharsOk(fs.name) && Blanks(fs.gap) && Blanks(fs.pad) && DocOk(fs.doc) && Blanks(fs.after) && Blanks(fs.before)
      && FieldsOk(fs.rest)
  }

  function NameText(cs: seq<Char>): seq<byte> {
    [34] + CharsText(cs) + [34]
  }

  function DocText(doc: Doc): seq<byte> {
    match doc
    case DNull => [110, 117, 108, 108]
    case DFalse => [102, 97, 108, 115, 101]
    case DTrue => [116, 114, 117, 101]
    case DNumber(n) => NumText(n)
    case DString(cs) => NameText(cs)
    case DArray(pad, elems) => [91] + (pad + if elems.NoElems? then [93] else ElemsText(elems))
    case DObject(pad, fields) => [123] + (pad + if fields.NoFields? then [125] else FieldsText(fields))
  }

  function ElemsText(es: Elems): seq<byte>
    requires es.Elem?
  {
    DocText(es.doc) + (es.after + if es.rest.NoElems? then [93] else [44] + (es.before + ElemsText(es.rest)))
  }

  function FieldsText(fs: Fields): seq<byte>
    requires fs.Field?
  {
    NameText(fs.name) + (fs.gap + ([58] + (fs.pad + (DocText(fs.doc) + (fs.after +
    if fs.rest.NoFields? then [125] else [44] + (fs.before + FieldsText(fs.rest)))))))
  }

  function DocMeans(doc: Doc): Value
    requires DocOk(doc)
  {
    match doc
    case DNull => Null
    case DFalse => False
    case DTrue => True
    case DNumber(n) => Number(NumMeans(n))
    case DString(cs) => Str(CharsMean(cs))
    case DArray(_, elems) => Arr(ElemsMean(elems))
    case DObject(_, fields) => Obj(FieldsMean(fields))
  }

  function ElemsMean(es: Elems): Items
    requires ElemsOk(es)
  {
    if es.NoElems? then NoItems else Item(DocMeans(es.doc), ElemsMean(es.rest))
  }

  function FieldsMean(fs: Fields): Members
    requires FieldsOk(fs)
  {
    if fs.NoFields? then NoMembers else Member(CharsMean(fs.name), DocMeans(fs.doc), FieldsMean(fs.rest))
  }

  // ---------- Strings are read ----------

  /** The pieces that the parser takes a character for. */
  function CharPieces(ch: Char): seq<Piece>
    requires CharOk(ch)
  {
    match ch
    case Plain(c) => [Byte(c)]
    case Short(x) => [Byte(CharMeans(ch)[0])]
    case Code(ds) => [Unit(FourValue(ds))]
    case Pair(high, low) => [Unit(FourValue(high)), Unit(FourValue(low))]
  }

  function AllPieces(cs: seq<Char>): seq<Piece>
    requires CharsOk(cs)
  {
    if cs == [] then [] else CharPieces(cs[0]) + AllPieces(cs[1..])
  }

  function Prepended(xs: seq<Piece>, r: Result<seq<Piece>>): Result<seq<Piece>> {
    if r.Ok? then Ok(xs + r.value, r.end) else r
  }

  lemma UnitIs(t: seq<byte>, p: nat, ds: seq<byte>)
    requires HasAt(t, p, ds) && FourDigits(ds)
    ensures UnitValue(t, p) == FourValue(ds) && GoesOn(t, p, 4)
    ensures forall k :: p <= k < p + 4 ==> At(t, k) != 0 && At(t, k) != 34 && At(t, k) != 92
  {
    HasAtByte(t, p, ds, 0);
    HasAtByte(t, p, ds, 1);
    HasAtByte(t, p, ds, 2);
    HasAtByte(t, p, ds, 3);
    forall k | p <= k < p + 4
      ensures At(t, k) != 0 && At(t, k) != 34 && At(t, k) != 92
    {
      assert k == p || k == p + 1 || k == p + 2 || k == p + 3;
    }
  }

  /** An escape with a code unit, for both passes. */
  lemma CodeIsRead(t: seq<byte>, p: nat, ds: seq<byte>)
    requires HasAt(t, p, [92, 117] + ds) && FourDigits(ds)
    ensures p + 6 <= |t| && Pieces(t, p) == Prepended([Unit(FourValue(ds))], Pieces(t, p + 6))
    ensures StringStop(t, p) == StringStop(t, p + 6)
  {
    hide UnitValue, GoesOn, FourValue;
    HasAtSplit(t, p, [92, 117], ds);
    HasAtByte(t, p, [92, 117], 0);
    HasAtByte(t, p, [92, 117], 1);
    UnitIs(t, p + 2, ds);
    assert At(t, p + 2) != 0 && At(t, p + 3) != 0 && At(t, p + 4) != 0 && At(t, p + 5) != 0;
    FourBehind(t, p + 2);
  }

  lemma FourBehind(t: seq<byte>, p: nat)
    requires forall k :: p <= k < p + 4 ==> At(t, k) != 0 && At(t, k) != 34 && At(t, k) != 92
    ensures StringStop(t, p) == StringStop(t, p + 4)
  {
    assert StringStop(t, p) == StringStop(t, p + 1);
    assert StringStop(t, p + 1) == StringStop(t, p + 2);
    assert StringStop(t, p + 2) == StringStop(t, p + 3);
  }

  lemma PairIsRead(t: seq<byte>, p: nat, high: seq<byte>, low: seq<byte>)
    requires HasAt(t, p, [92, 117] + high + [92, 117] + low) && FourDigits(high) && FourDigits(low)
    ensures p + 12 <= |t|
    ensures Pieces(t, p) == Prepended([Unit(FourValue(high)), Unit(FourValue(low))], Pieces(t, p + 12))
    ensures StringStop(t, p) == StringStop(t, p + 12)
  {
    hide HasAt, Pieces, StringStop, FourValue;
    var u, v := Unit(FourValue(high)), Unit(FourValue(low));
    assert [92, 117] + high + [92, 117] + low == ([92, 117] + high) + ([92, 117] + low);
    HasAtSplit(t, p, [92, 117] + high, [92, 117] + low);
    CodeIsRead(t, p, high);
    CodeIsRead(t, p + 6, low);
    if Pieces(t, p + 12).Ok? {
      var xs := Pieces(t, p + 12).value;
      assert [u] + ([v] + xs) == [u, v] + xs;
    }
  }

  /** One character, for both passes of the parser. */
  lemma CharIsRead(t: seq<byte>, p: nat, ch: Char)
    requires HasAt(t, p, CharText(ch)) && CharOk(ch)
    ensures p + |CharText(ch)| <= |t|
    ensures Pieces(t, p) == Prepended(CharPieces(ch), Pieces(t, p + |CharText(ch)|))
    ensures StringStop(t, p) == StringStop(t, p + |CharText(ch)|)
  {
    hide UnitValue, GoesOn, FourValue;
    match ch
    case Plain(c) =>
      HasAtByte(t, p, [c], 0);
    case Short(x) =>
      HasAtByte(t, p, [92, x], 0);
      HasAtByte(t, p, [92, x], 1);
    case Code(ds) =>
      CodeIsRead(t, p, ds);
    case Pair(high, low) =>
      PairIsRead(t, p, high, low);
  }

  lemma {:induction false} CharsAreRead(t: seq<byte>, p: nat, cs: seq<Char>)
    requires HasAt(t, p, CharsText(cs) + [34]) && CharsOk(cs)
    ensures var e := p + |CharsText(cs)|;
            e < |t| && At(t, e) == 34 && Pieces(t, p) == Ok(AllPieces(cs), e) && StringStop(t, p) == e
    decreases |cs|
  {
    hide HasAt, CharText, CharPieces, StringStop, Pieces;
    if cs == [] {
      assert CharsText(cs) + [34] == [34];
      QuoteIsEnd(t, p);
    } else {
      var rest := CharsText(cs[1..]);
      assert CharsText(cs) + [34] == CharText(cs[0]) + (rest + [34]);
      HasAtSplit(t, p, CharText(cs[0]), rest + [34]);
      CharIsRead(t, p, cs[0]);
      CharsAreRead(t, p + |CharText(cs[0])|, cs[1..]);
    }
  }

  lemma QuoteIsEnd(t: seq<byte>, p: nat)
    requires HasAt(t, p, [34])
    ensures p < |t| && At(t, p) == 34 && Pieces(t, p) == Ok([], p) && StringStop(t, p) == p
  {
    HasAtByte(t, p, [34], 0);
  }

  lemma {:induction false} PiecesMean(cs: seq<Char>)
    requires CharsOk(cs)
    ensures Transcode(AllPieces(cs)) == CharsMean(cs)
    decreases |cs|
  {
    hide Utf8, FourValue, FourDigits;
    if cs != [] {
      var ps, rest := CharPieces(cs[0]), AllPieces(cs[1..]);
      PiecesMean(cs[1..]);
      assert (ps + rest)[|ps|..] == rest;
      if cs[0].Pair? {
        var u, v := FourValue(cs[0].high), FourValue(cs[0].low);
        PairIsJoined(u, v);
        assert (ps + rest)[0] == Unit(u) && (ps + rest)[1] == Unit(v) && (ps + rest)[2..] == rest;
      } else {
        assert (ps + rest)[0] == ps[0] && (ps + rest)[1..] == rest;
      }
    }
  }

  lemma PairIsJoined(u: nat, v: nat)
    requires 55296 <= u <= 56319 && 56320 <= v <= 57343
    ensures Utf16.IsHigh(u) && Utf16.IsLow(v)
    ensures Utf16.Join(u, v) == 65536 + (u - 55296) * 1024 + (v - 56320)
  {
  }

  /** A string of the grammar, at any place in a text. */
  lemma StringIsRead(t: seq<byte>, i: nat, cs: seq<Char>)
    requires HasAt(t, i, NameText(cs)) && CharsOk(cs)
    ensures var e := i + |CharsText(cs)| + 2;
            e <= |t| && At(t, i) == 34 && ParseString(t, i) == Ok(CharsMean(cs), e)
  {
    hide HasAt, CharsText, StringStop, Pieces, Transcode, Contained;
    assert [34] + CharsText(cs) + [34] == [34] + (CharsText(cs) + [34]);
    HasAtSplit(t, i, [34], CharsText(cs) + [34]);
    HasAtByte(t, i, [34], 0);
    CharsAreRead(t, i + 1, cs);
    TranscodeFits(t, i + 1);
    PiecesMean(cs);
  }

  /** The escapes of one letter: what a string of just one is read as. */
  lemma ShortIsRead(t: seq<byte>, i: nat, x: byte)
    requires HasAt(t, i, [34, 92, x, 34]) && x != 117 && x != 0
    ensures x == 98 ==> ParseString(t, i) == Ok([8], i + 4)
    ensures x == 102 ==> ParseString(t, i) == Ok([12], i + 4)
    ensures x == 110 ==> ParseString(t, i) == Ok([10], i + 4)
    ensures x == 114 ==> ParseString(t, i) == Ok([13], i + 4)
    ensures x == 116 ==> ParseString(t, i) == Ok([9], i + 4)
    ensures x !in [98, 102, 110, 114, 116] ==> ParseString(t, i) == Ok([x], i + 4)
  {
    hide ParseString, HasAt;
    var cs := [Short(x)];
    assert CharsText(cs) == CharText(cs[0]) + CharsText(cs[1..]) == [92, x];
    assert CharsMean(cs) == CharMeans(cs[0]) + CharsMean(cs[1..]) == CharMeans(cs[0]);
    assert NameText(cs) == [34, 92, x, 34];
    StringIsRead(t, i, cs);
  }

  // ---------- Numbers are read ----------

  /** Nothing that goes on a number. */
  predicate Behind(c: byte) {
    !(48 <= c <= 57) && c != 46 && c != 69 && c != 101
  }

  lemma {:induction false} DigitsAre(t: seq<byte>, i: nat, ds: seq<byte>)
    requires HasAt(t, i, ds) && AllDigits(ds)
    ensures forall k :: i <= k < i + |ds| ==> IsDigit(t[k])
    ensures DigitsValue(t, i, i + |ds|) == Decimal(ds)
    decreases |ds|
  {
    if ds != [] {
      var init, last := ds[..|ds| - 1], ds[|ds| - 1];
      assert ds == init + [last];
      HasAtSplit(t, i, init, [last]);
      HasAtByte(t, i + |init|, [last], 0);
      DigitsAre(t, i, init);
    }
  }

  lemma DigitsStop(t: seq<byte>, i: nat, j: nat)
    requires i <= j <= |t| && (forall k :: i <= k < j ==> IsDigit(t[k])) && !IsDigit(At(t, j))
    ensures DigitsEnd(t, i) == j
  {
    DigitsEndAt(t, i, j);
  }

  lemma {:induction false} TenIsPower(n: nat)
    ensures Pow10(n) == Ten(n) && Pow10(0 - n) == 1.0 / Ten(n)
    decreases n
  {
    if n > 0 {
      TenIsPower(n - 1);
      assert Pow10(0 - n) == Pow10(0 - n + 1) / 10.0;
      assert 1.0 / Ten(n - 1) / 10.0 == 1.0 / (10.0 * Ten(n - 1));
    }
  }

  /** The integer part. */
  lemma WholeIsRead(t: seq<byte>, i: nat, negative: bool, ds: seq<byte>)
    requires HasAt(t, i, SignText(negative) + ds) && ds != [] && AllDigits(ds) && (|ds| > 1 ==> ds[0] != 48)
    requires !IsDigit(At(t, i + |SignText(negative) + ds|))
    ensures var c := i + |SignText(negative) + ds|;
            && IntEnd(t, i) == c && DigitsValue(t, IntStart(t, i), c) == Decimal(ds)
    ensures (At(t, i) == 45 <==> negative) && (At(t, i) == 45 || IsDigit(At(t, i)))
  {
    hide DigitsEnd, DigitsValue, Decimal, HasAt;
    var a := i + |SignText(negative)|;
    HasAtSplit(t, i, SignText(negative), ds);
    if negative {
      HasAtByte(t, i, [45], 0);
    }
    HasAtByte(t, a, ds, 0);
    DigitsAre(t, a, ds);
    DigitsStop(t, a, a + |ds|);
    if ds[0] == 48 {
      assert ds == [48];
      NoDigits(t, a + 1);
      assert Decimal(ds) == 0 by { ZeroIsZero(); }
    }
  }

  lemma ZeroIsZero()
    ensures Decimal([48]) == 0 && Decimal([]) == 0
  {
  }

  lemma FractionIsRead(t: seq<byte>, c: nat, ds: seq<byte>)
    requires HasAt(t, c, FractionText(ds)) && AllDigits(ds)
    requires var d := c + |FractionText(ds)|; !IsDigit(At(t, d)) && At(t, d) != 46
    ensures FractionEnd(t, c) == c + |FractionText(ds)|
    ensures FractionValue(t, c) == Decimal(ds) as real / Ten(|ds|)
  {
    hide DigitsEnd, DigitsValue, Decimal, Pow10, Ten, HasAt, FractionValue;
    if ds == [] {
      TextInside(t, c, FractionText(ds));
      NoFractionIs(t, c);
    } else {
      HasAtSplit(t, c, [46], ds);
      HasAtByte(t, c, [46], 0);
      HasAtByte(t, c + 1, ds, 0);
      DigitsAre(t, c + 1, ds);
      DigitsStop(t, c + 1, c + 1 + |ds|);
      FractionIs(t, c, |ds|, Decimal(ds));
    }
  }

  lemma NoFractionIs(t: seq<byte>, c: nat)
    requires c <= |t| && !HasFraction(t, c)
    ensures FractionEnd(t, c) == c && FractionValue(t, c) == Decimal([]) as real / Ten(0)
  {
    ZeroIsZero();
  }

  lemma FractionIs(t: seq<byte>, c: nat, n: nat, v: nat)
    requires c + 1 + n <= |t| && HasFraction(t, c) && FractionEnd(t, c) == c + 1 + n
    requires DigitsValue(t, c + 1, c + 1 + n) == v
    ensures FractionValue(t, c) == v as real / Ten(n)
  {
    hide DigitsEnd, DigitsValue, Pow10, Ten, FractionEnd;
    TenIsPower(n);
    assert c + 1 - FractionEnd(t, c) == 0 - n;
    OverIsTimes(v as real, Ten(n));
  }

  lemma OverIsTimes(x: real, y: real)
    requires y > 0.0
    ensures x * (1.0 / y) == x / y
  {
  }

  lemma ExpIsRead(t: seq<byte>, d: nat, e: Exp)
    requires HasAt(t, d, ExpText(e)) && NumOk(Num(false, [48], [], e)) && Behind(At(t, d + |ExpText(e)|))
    ensures ExponentEnd(t, d) == d + |ExpText(e)|
    ensures Pow10(ExponentValue(t, d)) == ExpMeans(e)
  {
    hide DigitsEnd, DigitsValue, Decimal, Pow10, Ten, HasAt, ExpMeans;
    if e.NoExp? {
      OneIsPower(e);
    } else {
      hide ExponentValue, ExponentEnd;
      var s := d + 1 + |e.sign|;
      ExpParts(t, d, e);
      DigitsAre(t, s, e.digits);
      DigitsStop(t, s, s + |e.digits|);
      ExpIs(t, d, s, s + |e.digits|);
      PowerOfExp(e);
    }
  }

  lemma ExpParts(t: seq<byte>, d: nat, e: Exp)
    requires e.Exp? && HasAt(t, d, ExpText(e)) && e.digits != [] && 48 <= e.digits[0] <= 57
    requires e.mark == 69 || e.mark == 101
    requires e.sign == [] || e.sign == [43] || e.sign == [45]
    ensures HasAt(t, d + 1 + |e.sign|, e.digits) && HasExponent(t, d) && ExponentStart(t, d) == d + 1 + |e.sign|
    ensures At(t, d + 1) == 45 <==> e.sign == [45]
    ensures d + 1 + |e.sign| + |e.digits| <= |t|
  {
    hide HasAt;
    var tail := e.sign + e.digits;
    assert ExpText(e) == [e.mark] + tail;
    HasAtSplit(t, d, [e.mark], tail);
    HasAtSplit(t, d + 1, e.sign, e.digits);
    HasAtByte(t, d, [e.mark], 0);
    HasAtByte(t, d + 1, tail, 0);
    TextInside(t, d + 1 + |e.sign|, e.digits);
  }

  lemma ExpIs(t: seq<byte>, d: nat, s: nat, e: nat)
    requires HasExponent(t, d) && ExponentStart(t, d) == s <= e <= |t| && DigitsEnd(t, s) == e
    ensures ExponentEnd(t, d) == e
    ensures ExponentValue(t, d) == if At(t, d + 1) == 45 then 0 - DigitsValue(t, s, e) else DigitsValue(t, s, e)
  {
    hide DigitsEnd, DigitsValue;
  }

  lemma PowerOfExp(e: Exp)
    requires e.Exp? && AllDigits(e.digits)
    ensures Pow10(if e.sign == [45] then 0 - Decimal(e.digits) else Decimal(e.digits)) == ExpMeans(e)
  {
    hide Pow10, Ten, Decimal;
    TenIsPower(Decimal(e.digits));
  }

  lemma OneIsPower(e: Exp)
    requires e.NoExp?
    ensures Pow10(0) == ExpMeans(e)
  {
  }

  /** What follows the parts of a number does not go on them. */
  lemma PartsStop(t: seq<byte>, c: nat, n: Num)
    requires HasAt(t, c, FractionText(n.fraction) + ExpText(n.exp)) && NumOk(n)
    requires Behind(At(t, c + |FractionText(n.fraction) + ExpText(n.exp)|))
    ensures !IsDigit(At(t, c))
    ensures var d := c + |FractionText(n.fraction)|; !IsDigit(At(t, d)) && At(t, d) != 46
  {
    hide HasAt;
    HasAtSplit(t, c, FractionText(n.fraction), ExpText(n.exp));
    if n.fraction != [] {
      HasAtByte(t, c, FractionText(n.fraction), 0);
    }
    if n.exp.Exp? {
      HasAtByte(t, c + |FractionText(n.fraction)|, ExpText(n.exp), 0);
    }
  }

  /** A number of the grammar, at any place in a text. */
  lemma NumIsRead(t: seq<byte>, i: nat, n: Num)
    requires HasAt(t, i, NumText(n)) && NumOk(n) && Behind(At(t, i + |NumText(n)|))
    ensures i + |NumText(n)| <= |t| && NumberEnd(t, i) == i + |NumText(n)| && NumberValue(t, i) == NumMeans(n)
    ensures At(t, i) == 45 || IsDigit(At(t, i))
  {
    hide HasAt, DigitsEnd, DigitsValue, Decimal, Pow10, Ten, FractionValue, ExponentValue, ExpMeans, IntEnd, FractionEnd,
         ExponentEnd, IntStart, SignText, FractionText, ExpText;
    var whole, fraction, exp := SignText(n.negative) + n.whole, FractionText(n.fraction), ExpText(n.exp);
    assert NumText(n) == whole + (fraction + exp);
    HasAtSplit(t, i, whole, fraction + exp);
    var c := i + |whole|;
    HasAtSplit(t, c, fraction, exp);
    PartsStop(t, c, n);
    WholeIsRead(t, i, n.negative, n.whole);
    FractionIsRead(t, c, n.fraction);
    ExpIsRead(t, c + |fraction|, n.exp);
    TextInside(t, i, NumText(n));
  }

  lemma TextInside(t: seq<byte>, i: nat, f: seq<byte>)
    requires HasAt(t, i, f)
    ensures i + |f| <= |t|
  {
  }

  // ---------- Values are read ----------

  /** The first byte of a value: no blank, and no bracket that closes. */
  lemma DocStart(doc: Doc)
    requires DocOk(doc)
    ensures DocText(doc) != [] && DocText(doc)[0] > 32 && DocText(doc)[0] != 93 && DocText(doc)[0] != 125
    ensures doc.DNumber? ==> DocText(doc)[0] == 45 || 48 <= DocText(doc)[0] <= 57
    ensures doc.DString? ==> DocText(doc)[0] == 34
  {
    hide CharsText, ElemsText, FieldsText, ExpText, FractionText;
    if doc.DNumber? {
      var n := doc.n;
      assert NumText(n)[0] == (SignText(n.negative) + n.whole)[0];
    }
  }

  /** Anything but an array or object. */
  lemma LeafIsRead(t: seq<byte>, i: nat, doc: Doc)
    requires HasAt(t, i, DocText(doc)) && DocOk(doc) && !doc.DArray? && !doc.DObject?
    requires doc.DNumber? ==> Behind(At(t, i + |DocText(doc)|))
    ensures i + |DocText(doc)| <= |t| && ParseValue(t, i) == Ok(DocMeans(doc), i + |DocText(doc)|)
  {
    hide ParseString, NumberEnd, NumberValue, NumText, NumMeans, NameText, CharsMean, Behind, NumOk, CharsOk;
    TextInside(t, i, DocText(doc));
    match doc
    case DNull =>
    case DFalse => NotNull(t, i);
    case DTrue => NotNull(t, i);
    case DNumber(n) =>
      NumIsRead(t, i, n);
      NotAWord(t, i);
    case DString(cs) =>
      StringIsRead(t, i, cs);
      NameLength(cs);
      NotAWord(t, i);
  }

  lemma NameLength(cs: seq<Char>)
    ensures |NameText(cs)| == |CharsText(cs)| + 2
  {
  }

  /** Blanks, and the byte behind them. */
  lemma PastBlanks(t: seq<byte>, i: nat, ws: seq<byte>, f: seq<byte>)
    requires HasAt(t, i, ws + f) && Blanks(ws) && f != [] && f[0] > 32
    ensures i + |ws| < |t| && Skip(t, i) == i + |ws| && HasAt(t, i + |ws|, f) && At(t, i + |ws|) == f[0]
    ensures f[0] == 44 || f[0] == 93 || f[0] == 125 ==> Behind(At(t, i))
  {
    hide Skip;
    assert Blank(ws);
    AfterBlank(t, i, ws, f);
    HasAtByte(t, i, ws + f, 0);
  }

  /**
   Every text of the grammar is read as what it means, at any place in a text; a number is read to its end if what
   follows does not go on it.
   */
  lemma {:induction false} DocIsRead(t: seq<byte>, i: nat, doc: Doc)
    requires HasAt(t, i, DocText(doc)) && DocOk(doc)
    requires doc.DNumber? ==> Behind(At(t, i + |DocText(doc)|))
    ensures i + |DocText(doc)| <= |t| && ParseValue(t, i) == Ok(DocMeans(doc), i + |DocText(doc)|)
    decreases doc, 1
  {
    hide HasAt, ParseValue, DocText, DocMeans, DocOk, Behind;
    match doc
    case DArray(_, _) => ArrayIsRead(t, i, doc);
    case DObject(_, _) => ObjectIsRead(t, i, doc);
    case _ => LeafIsRead(t, i, doc);
  }

  lemma {:induction false} ArrayIsRead(t: seq<byte>, i: nat, doc: Doc)
    requires doc.DArray? && HasAt(t, i, DocText(doc)) && DocOk(doc)
    ensures i + |DocText(doc)| <= |t| && ParseValue(t, i) == Ok(DocMeans(doc), i + |DocText(doc)|)
    decreases doc, 0
  {
    hide HasAt, Skip, ParseItems, ElemsText, Blanks, Behind;
    var pad, elems := doc.pad, doc.elems;
    var f := if elems.NoElems? then [93] else ElemsText(elems);
    TextInside(t, i, DocText(doc));
    HasAtSplit(t, i, [91], pad + f);
    HasAtByte(t, i, [91], 0);
    NotAWord(t, i);
    if elems.Elem? {
      ElemsStart(elems);
    }
    PastBlanks(t, i + 1, pad, f);
    if elems.Elem? {
      ElemsAreRead(t, i + 1 + |pad|, elems);
    }
  }

  lemma {:induction false} ObjectIsRead(t: seq<byte>, i: nat, doc: Doc)
    requires doc.DObject? && HasAt(t, i, DocText(doc)) && DocOk(doc)
    ensures i + |DocText(doc)| <= |t| && ParseValue(t, i) == Ok(DocMeans(doc), i + |DocText(doc)|)
    decreases doc, 0
  {
    hide HasAt, Skip, ParseMembers, FieldsText, Blanks, Behind;
    var pad, fields := doc.pad, doc.fields;
    var f := if fields.NoFields? then [125] else FieldsText(fields);
    TextInside(t, i, DocText(doc));
    HasAtSplit(t, i, [123], pad + f);
    HasAtByte(t, i, [123], 0);
    NotAWord(t, i);
    if fields.Field? {
      FieldsStart(fields);
    }
    PastBlanks(t, i + 1, pad, f);
    if fields.Field? {
      FieldsAreRead(t, i + 1 + |pad|, fields);
    }
  }

  lemma ElemsStart(es: Elems)
    requires ElemsOk(es) && es.Elem?
    ensures ElemsText(es) != [] && ElemsText(es)[0] > 32 && ElemsText(es)[0] != 93
  {
    hide DocText;
    DocStart(es.doc);
  }

  lemma FieldsStart(fs: Fields)
    requires FieldsOk(fs) && fs.Field?
    ensures FieldsText(fs) != [] && FieldsText(fs)[0] == 34
  {
    hide DocText, CharsText;
  }

  /** What stands behind a value in an array. */
  function ElemTail(es: Elems): (r: seq<byte>)
    requires es.Elem?
    ensures r != []
  {
    if es.rest.NoElems? then [93] else [44] + (es.before + ElemsText(es.rest))
  }

  lemma ElemsUnfold(es: Elems)
    requires es.Elem? && ElemsOk(es)
    ensures ElemsText(es) == DocText(es.doc) + (es.after + ElemTail(es))
    ensures DocOk(es.doc) && Blanks(es.after) && Blanks(es.before) && ElemsOk(es.rest)
    ensures es.rest.NoElems? ==> ElemTail(es) == [93] && ElemsMean(es) == Item(DocMeans(es.doc), NoItems)
    ensures es.rest.Elem? ==>
              && ElemTail(es) == [44] + (es.before + ElemsText(es.rest)) && ElemTail(es)[0] == 44
              && ElemsMean(es) == Item(DocMeans(es.doc), ElemsMean(es.rest))
  {
    hide DocText, DocMeans, DocOk, Blanks;
  }

  /** How a list of values is read, from how its parts are. */
  lemma ItemsFrom(t: seq<byte>, i: nat, v: Value, e: nat, p: nat)
    requires i <= |t| && e <= |t| && ParseValue(t, i) == Ok(v, e) && p == Skip(t, e)
    ensures At(t, p) == 93 ==> ParseItems(t, i) == Ok(Item(v, NoItems), p + 1)
    ensures At(t, p) == 44 && ParseItems(t, Skip(t, p + 1)).Ok? ==>
              var r := ParseItems(t, Skip(t, p + 1)); ParseItems(t, i) == Ok(Item(v, r.value), r.end)
  {
    hide Skip, ParseValue;
  }

  lemma {:induction false} ElemsAreRead(t: seq<byte>, i: nat, es: Elems)
    requires es.Elem? && HasAt(t, i, ElemsText(es)) && ElemsOk(es)
    ensures i + |ElemsText(es)| <= |t| && ParseItems(t, i) == Ok(ElemsMean(es), i + |ElemsText(es)|)
    decreases es
  {
    hide HasAt, Skip, ParseValue, ParseItems, DocText, Blanks, Behind, DocMeans, DocOk, ElemsOk, ElemsText, ElemTail,
         ElemsMean;
    ElemsUnfold(es);
    var d, tail := DocText(es.doc), ElemTail(es);
    var e := i + |d|;
    TextInside(t, i, ElemsText(es));
    HasAtSplit(t, i, d, es.after + tail);
    PastBlanks(t, e, es.after, tail);
    DocIsRead(t, i, es.doc);
    ItemsFrom(t, i, DocMeans(es.doc), e, e + |es.after|);
    if es.rest.Elem? {
      var p := e + |es.after|;
      ElemsStart(es.rest);
      HasAtSplit(t, p, [44], es.before + ElemsText(es.rest));
      PastBlanks(t, p + 1, es.before, ElemsText(es.rest));
      ElemsAreRead(t, p + 1 + |es.before|, es.rest);
    }
  }

  function FieldTail(fs: Fields): (r: seq<byte>)
    requires fs.Field?
    ensures r != []
  {
    if fs.rest.NoFields? then [125] else [44] + (fs.before + FieldsText(fs.rest))
  }

  lemma FieldsUnfold(fs: Fields)
    requires fs.Field? && FieldsOk(fs)
    ensures FieldsText(fs) ==
            NameText(fs.name) + (fs.gap + ([58] + (fs.pad + (DocText(fs.doc) + (fs.after + FieldTail(fs))))))
    ensures CharsOk(fs.name) && Blanks(fs.gap) && Blanks(fs.pad) && DocOk(fs.doc) && Blanks(fs.after)
    ensures Blanks(fs.before) && FieldsOk(fs.rest)
    ensures fs.rest.NoFields? ==>
              && FieldTail(fs) == [125]
              && FieldsMean(fs) == Member(CharsMean(fs.name), DocMeans(fs.doc), NoMembers)
    ensures fs.rest.Field? ==>
              && FieldTail(fs) == [44] + (fs.before + FieldsText(fs.rest)) && FieldTail(fs)[0] == 44
              && FieldsMean(fs) == Member(CharsMean(fs.name), DocMeans(fs.doc), FieldsMean(fs.rest))
  {
    hide DocText, DocMeans, DocOk, Blanks, NameText, CharsMean, CharsOk;
  }

  /** A name and a colon. */
  lemma NameIsRead(t: seq<byte>, i: nat, name: seq<Char>, gap: seq<byte>, pad: seq<byte>, f: seq<byte>)
    requires HasAt(t, i, NameText(name) + (gap + ([58] + (pad + f)))) && CharsOk(name) && Blanks(gap) && Blanks(pad)
    requires f != [] && f[0] > 32
    ensures var e := i + |NameText(name)|;
            var c := e + |gap|;
            && c + 1 + |pad| < |t| && ParseString(t, i) == Ok(CharsMean(name), e)
            && Skip(t, e) == c && At(t, c) == 58 && Skip(t, c + 1) == c + 1 + |pad|
            && HasAt(t, c + 1 + |pad|, f)
  {
    hide HasAt, Skip, ParseString, NameText, Blanks, CharsMean;
    HasAtSplit(t, i, NameText(name), gap + ([58] + (pad + f)));
    StringIsRead(t, i, name);
    NameLength(name);
    ColonIsRead(t, i + |NameText(name)|, gap, pad, f);
  }

  lemma ColonIsRead(t: seq<byte>, e: nat, gap: seq<byte>, pad: seq<byte>, f: seq<byte>)
    requires HasAt(t, e, gap + ([58] + (pad + f))) && Blanks(gap) && Blanks(pad) && f != [] && f[0] > 32
    ensures var c := e + |gap|;
            && c + 1 + |pad| < |t| && Skip(t, e) == c && At(t, c) == 58 && Skip(t, c + 1) == c + 1 + |pad|
            && HasAt(t, c + 1 + |pad|, f)
  {
    hide HasAt, Skip, Blanks;
    PastBlanks(t, e, gap, [58] + (pad + f));
    HasAtSplit(t, e + |gap|, [58], pad + f);
    PastBlanks(t, e + |gap| + 1, pad, f);
  }

  /** How a list of members is read, from how its parts are. */
  lemma MembersFrom(t: seq<byte>, i: nat, name: seq<byte>, b: nat, c: nat, v: Value, e: nat, p: nat)
    requires i <= |t| && b <= |t| && e <= |t| && ParseString(t, i) == Ok(name, b) && c == Skip(t, b) && At(t, c) == 58
    requires ParseValue(t, Skip(t, c + 1)) == Ok(v, e) && p == Skip(t, e)
    ensures At(t, p) == 125 ==> ParseMembers(t, i) == Ok(Member(name, v, NoMembers), p + 1)
    ensures At(t, p) == 44 && ParseMembers(t, Skip(t, p + 1)).Ok? ==>
              var r := ParseMembers(t, Skip(t, p + 1)); ParseMembers(t, i) == Ok(Member(name, v, r.value), r.end)
  {
    hide Skip, ParseValue, ParseString;
  }

  lemma {:induction false} FieldsAreRead(t: seq<byte>, i: nat, fs: Fields)
    requires fs.Field? && HasAt(t, i, FieldsText(fs)) && FieldsOk(fs)
    ensures i + |FieldsText(fs)| <= |t| && ParseMembers(t, i) == Ok(FieldsMean(fs), i + |FieldsText(fs)|)
    decreases fs
  {
    hide HasAt, Skip, ParseValue, ParseString, ParseMembers, DocText, Blanks, NameText, Behind, CharsMean, DocMeans, DocOk,
         FieldsOk, FieldsText, FieldTail, FieldsMean, CharsOk;
    FieldsUnfold(fs);
    var d, tail := DocText(fs.doc), FieldTail(fs);
    var a := i + |NameText(fs.name)| + |fs.gap| + 1 + |fs.pad|;
    var e := a + |d|;
    TextInside(t, i, FieldsText(fs));
    DocStart(fs.doc);
    NameIsRead(t, i, fs.name, fs.gap, fs.pad, d + (fs.after + tail));
    HasAtSplit(t, a, d, fs.after + tail);
    PastBlanks(t, e, fs.after, tail);
    DocIsRead(t, a, fs.doc);
    var b := i + |NameText(fs.name)|;
    MembersFrom(t, i, CharsMean(fs.name), b, b + |fs.gap|, DocMeans(fs.doc), e, e + |fs.after|);
    if fs.rest.Field? {
      var p := e + |fs.after|;
      FieldsStart(fs.rest);
      HasAtSplit(t, p, [44], fs.before + FieldsText(fs.rest));
      PastBlanks(t, p + 1, fs.before, FieldsText(fs.rest));
      FieldsAreRead(t, p + 1 + |fs.before|, fs.rest);
    }
  }

  /** The whole text: a value with blanks around it, and nothing else. */
  lemma TextIsRead(before: seq<byte>, doc: Doc, after: seq<byte>)
    requires DocOk(doc) && Blanks(before) && Blanks(after)
    ensures var t := before + DocText(doc) + after; Parse(t, true) == Ok(DocMeans(doc), |t|)
  {
    hide HasAt, Skip, ParseValue, DocText, DocMeans, Behind, Blanks, Parse, DocOk;
    var d := DocText(doc);
    var t := before + d + after;
    DocStart(doc);
    IsWhole(t);
    assert t == before + (d + after);
    PastBlanks(t, 0, before, d + after);
    HasAtSplit(t, |before|, d, after);
    BlanksBehind(t, |before| + |d|, after);
    DocIsRead(t, |before|, doc);
    WholeFrom(t, DocMeans(doc), |before|, |before| + |d|);
  }

  lemma WholeFrom(t: seq<byte>, v: Value, i: nat, e: nat)
    requires Skip(t, 0) == i <= |t| && e <= |t| && ParseValue(t, i) == Ok(v, e) && Skip(t, e) == |t|
    ensures Parse(t, true) == Ok(v, |t|)
  {
    hide Skip, ParseValue;
  }

  lemma IsWhole(t: seq<byte>)
    ensures HasAt(t, 0, t)
  {
  }

  lemma BlanksBehind(t: seq<byte>, i: nat, ws: seq<byte>)
    requires HasAt(t, i, ws) && Blanks(ws) && i + |ws| == |t|
    ensures Skip(t, i) == |t| && Behind(At(t, i))
  {
    assert Blank(ws);
    SkipBlank(t, i, ws);
    NoSkip(t, |t|);
    if ws != [] {
      HasAtByte(t, i, ws, 0);
    }
  }
}
