/**
 What the parser accepts besides the grammar, and that it accepts nothing else: an escape may have any four bytes, a
 number may lack digits or have a zero in front, and a string may lack its closing quote where the text ends.
 */
module JsonAccepted {
  import opened Bytes
  import opened JsonText
  import opened JsonRoundTrip
  import opened JsonGrammar
  import JsonParse

  // ---------- Strings ----------

  predicate LooseChar(ch: Char) {
    match ch
    case Plain(c) => c != 0 && c != 34 && c != 92
    case Short(x) => x != 0 && x != 117
    case Code(ds) => |ds| == 4 && 0 !in ds
    case Pair(_, _) => false
  }

  predicate LooseChars(cs: seq<Char>) {
    forall k :: 0 <= k < |cs| ==> LooseChar(cs[k])
  }

  /** Four bytes that are no digits count as zero. */
  function CodeUnit(ds: seq<byte>): nat {
    if FourDigits(ds) then FourValue(ds) else 0
  }

  function LoosePiece(ch: Char): Piece
    requires LooseChar(ch)
  {
    match ch
    case Plain(c) => Byte(c)
    case Short(x) => Byte(CharMeans(ch)[0])
    case Code(ds) => Unit(CodeUnit(ds))
  }

  function LoosePieces(cs: seq<Char>): seq<Piece>
    requires LooseChars(cs)
  {
    if cs == [] then [] else [LoosePiece(cs[0])] + LoosePieces(cs[1..])
  }

  lemma FourBytes(t: seq<byte>, p: nat)
    requires GoesOn(t, p, 4)
    ensures p + 4 <= |t| && 0 !in t[p..p + 4] && UnitValue(t, p) == CodeUnit(t[p..p + 4])
  {
    assert At(t, p + 3) != 0;
    var ds := t[p..p + 4];
    assert ds[0] == t[p] && ds[1] == t[p + 1] && ds[2] == t[p + 2] && ds[3] == t[p + 3];
    forall k | 0 <= k < 4
      ensures ds[k] != 0
    {
      assert At(t, p + k) != 0;
    }
  }

  /** The first character of a string. */
  lemma FirstChar(t: seq<byte>, p: nat) returns (ch: Char)
    requires p <= |t| && Pieces(t, p).Ok? && At(t, p) != 34 && At(t, p) != 0
    ensures LooseChar(ch) && HasAt(t, p, CharText(ch)) && CharText(ch) != []
    ensures Pieces(t, p) == Prepended([LoosePiece(ch)], Pieces(t, p + |CharText(ch)|))
  {
    hide UnitValue, GoesOn, CodeUnit;
    if At(t, p) != 92 {
      ch := Plain(t[p]);
      assert t[p..p + 1] == [t[p]];
    } else if At(t, p + 1) != 117 {
      ch := Short(t[p + 1]);
      assert t[p..p + 2] == [92, t[p + 1]];
    } else {
      FourBytes(t, p + 2);
      var ds := t[p + 2..p + 6];
      ch := Code(ds);
      assert t[p..p + 6] == [92, 117] + ds;
    }
  }

  lemma {:induction false} PiecesAre(t: seq<byte>, p: nat) returns (cs: seq<Char>)
    requires p <= |t| && Pieces(t, p).Ok?
    ensures LooseChars(cs) && Pieces(t, p).value == LoosePieces(cs) && t[p..Pieces(t, p).end] == CharsText(cs)
    decreases |t| - p
  {
    hide CharText, LooseChar, LoosePiece;
    cs := [];
    if At(t, p) != 34 && At(t, p) != 0 {
      var ch := FirstChar(t, p);
      var q := p + |CharText(ch)|;
      var rest := PiecesAre(t, q);
      cs := [ch] + rest;
      assert cs[1..] == rest;
      assert t[p..Pieces(t, p).end] == t[p..q] + t[q..Pieces(t, q).end];
    }
  }

  /** A string, closed by a quote or by the end of the text. */
  predicate Spells(t: seq<byte>, i: nat, e: nat, cs: seq<Char>) {
    i <= e <= |t| && (t[i..e] == NameText(cs) || (At(t, e) == 0 && t[i..e] == [34] + CharsText(cs)))
  }

  /** What is read as a string is one, closed by a quote or by the end of the text. */
  lemma StringWas(t: seq<byte>, i: nat) returns (cs: seq<Char>)
    requires i <= |t| && ParseString(t, i).Ok?
    ensures LooseChars(cs) && ParseString(t, i).value == Transcode(LoosePieces(cs))
    ensures Spells(t, i, ParseString(t, i).end, cs)
  {
    hide Transcode, CharsText, LooseChars, Contained;
    ReadString(t, i);
    cs := PiecesAre(t, i + 1);
    var e := Pieces(t, i + 1).end;
    assert t[i..e] == [34] + t[i + 1..e];
    if At(t, e) == 34 {
      assert t[i..e + 1] == [34] + t[i + 1..e] + [34];
    }
  }

  lemma ReadString(t: seq<byte>, i: nat)
    requires i <= |t| && ParseString(t, i).Ok?
    ensures At(t, i) == 34 && Pieces(t, i + 1).Ok?
    ensures ParseString(t, i).value == Transcode(Pieces(t, i + 1).value)
    ensures var e := Pieces(t, i + 1).end;
            if At(t, e) == 34 then ParseString(t, i).end == e + 1 else At(t, e) == 0 && ParseString(t, i).end == e
  {
    hide Transcode, Pieces;
  }

  // ---------- Numbers ----------

  /** Digits may be missing behind a sign and in the exponent; one zero may stand in front. */
  predicate LooseNum(n: Num) {
    NumParts(n) && (n.negative || n.whole != []) && (|n.whole| > 1 && n.whole[0] == 48 ==> n.whole[1] != 48)
  }

  lemma {:induction false} DecimalOf(t: seq<byte>, i: nat, j: nat)
    requires i <= j <= |t| && forall k :: i <= k < j ==> IsDigit(t[k])
    ensures AllDigits(t[i..j]) && DigitsValue(t, i, j) == Decimal(t[i..j])
    decreases j - i
  {
    if i < j {
      assert t[i..j][..j - i - 1] == t[i..j - 1];
      DecimalOf(t, i, j - 1);
    }
  }

  lemma {:induction false} ZeroInFront(ds: seq<byte>)
    requires AllDigits(ds)
    ensures AllDigits([48] + ds) && Decimal([48] + ds) == Decimal(ds)
    decreases |ds|
  {
    if ds != [] {
      var init := ds[..|ds| - 1];
      ZeroInFront(init);
      assert ([48] + ds)[..|ds|] == [48] + init;
    }
  }

  lemma WholeWas(t: seq<byte>, i: nat)
    requires i <= |t| && (At(t, i) == 45 || IsDigit(At(t, i)))
    ensures SignEnd(t, i) <= IntStart(t, i) <= IntEnd(t, i) <= |t|
    ensures var ds := t[SignEnd(t, i)..IntEnd(t, i)];
            && AllDigits(ds) && DigitsValue(t, IntStart(t, i), IntEnd(t, i)) == Decimal(ds)
            && (At(t, i) == 45 || ds != []) && (|ds| > 1 && ds[0] == 48 ==> ds[1] != 48)
  {
    hide DigitsEnd, DigitsValue, Decimal;
    var a, b, c := SignEnd(t, i), IntStart(t, i), IntEnd(t, i);
    DecimalOf(t, b, c);
    if At(t, a) == 48 {
      assert t[a..c] == [48] + t[b..c];
      ZeroInFront(t[b..c]);
      assert c > b ==> t[a..c][1] == t[b];
    } else if IsDigit(At(t, b)) {
      Further(t, b);
      assert t[a..c][0] == t[a];
    }
  }

  function FractionOf(t: seq<byte>, c: nat): seq<byte>
    requires c <= |t|
  {
    if HasFraction(t, c) then t[c + 1..FractionEnd(t, c)] else []
  }

  lemma FractionWas(t: seq<byte>, c: nat)
    requires c <= |t|
    ensures AllDigits(FractionOf(t, c)) && t[c..FractionEnd(t, c)] == FractionText(FractionOf(t, c))
    ensures FractionValue(t, c) == Decimal(FractionOf(t, c)) as real / Ten(|FractionOf(t, c)|)
  {
    hide DigitsEnd, DigitsValue, Decimal, Ten, FractionValue, Pow10;
    var d := FractionEnd(t, c);
    if HasFraction(t, c) {
      Further(t, c + 1);
      DecimalOf(t, c + 1, d);
      assert t[c..d] == [46] + t[c + 1..d];
      FractionIs(t, c, d - c - 1, Decimal(t[c + 1..d]));
    } else {
      NoFractionIs(t, c);
    }
  }

  function ExpOf(t: seq<byte>, d: nat): Exp
    requires d <= |t|
  {
    if !HasExponent(t, d) then NoExp
    else Exp(t[d], t[d + 1..ExponentStart(t, d)], t[ExponentStart(t, d)..ExponentEnd(t, d)])
  }

  lemma ExpWas(t: seq<byte>, d: nat)
    requires d <= |t|
    ensures NumParts(Num(false, [], [], ExpOf(t, d))) && t[d..ExponentEnd(t, d)] == ExpText(ExpOf(t, d))
    ensures Pow10(ExponentValue(t, d)) == ExpMeans(ExpOf(t, d))
  {
    hide DigitsEnd, DigitsValue, Decimal, Pow10, ExpMeans;
    if HasExponent(t, d) {
      var s, e := ExponentStart(t, d), ExponentEnd(t, d);
      DecimalOf(t, s, e);
      assert t[d..e] == [t[d]] + t[d + 1..s] + t[s..e];
      assert s == d + 2 ==> t[d + 1..s] == [t[d + 1]];
      PowerOfExp(ExpOf(t, d));
    } else {
      OneIsPower(NoExp);
    }
  }

  /** The parts of what is read as a number. */
  function NumOf(t: seq<byte>, i: nat): Num
    requires i <= |t| && SignEnd(t, i) <= IntEnd(t, i)
  {
    Num(At(t, i) == 45, t[SignEnd(t, i)..IntEnd(t, i)], FractionOf(t, IntEnd(t, i)),
        ExpOf(t, FractionEnd(t, IntEnd(t, i))))
  }

  lemma NumTextWas(t: seq<byte>, i: nat)
    requires i <= |t| && (At(t, i) == 45 || IsDigit(At(t, i))) && SignEnd(t, i) <= IntEnd(t, i)
    ensures i <= NumberEnd(t, i) && t[i..NumberEnd(t, i)] == NumText(NumOf(t, i))
  {
    hide FractionEnd, ExponentEnd, FractionText, ExpText, IntEnd, FractionOf, ExpOf;
    var a, c := SignEnd(t, i), IntEnd(t, i);
    var d := FractionEnd(t, c);
    var e := ExponentEnd(t, d);
    FractionWas(t, c);
    ExpWas(t, d);
    assert t[i..a] == SignText(At(t, i) == 45);
    assert t[i..c] == t[i..a] + t[a..c];
    assert t[i..d] == t[i..c] + t[c..d];
    assert t[i..e] == t[i..d] + t[d..e];
  }

  lemma NumIsLoose(t: seq<byte>, i: nat)
    requires i <= |t| && (At(t, i) == 45 || IsDigit(At(t, i))) && SignEnd(t, i) <= IntEnd(t, i)
    ensures LooseNum(NumOf(t, i))
  {
    hide DigitsValue, Decimal, Pow10, Ten, FractionValue, ExponentValue, ExpMeans, FractionEnd, IntEnd, FractionOf, ExpOf,
         AllDigits, IntStart;
    var c := IntEnd(t, i);
    WholeWas(t, i);
    FractionWas(t, c);
    ExpWas(t, FractionEnd(t, c));
  }

  lemma NumValueWas(t: seq<byte>, i: nat)
    requires i <= |t| && (At(t, i) == 45 || IsDigit(At(t, i))) && SignEnd(t, i) <= IntEnd(t, i)
    requires NumParts(NumOf(t, i))
    ensures NumberValue(t, i) == NumMeans(NumOf(t, i))
  {
    hide NumParts, NumOf, DigitsEnd;
    var c := IntEnd(t, i);
    WholeWas(t, i);
    FractionWas(t, c);
    ExpWas(t, FractionEnd(t, c));
    PartsOf(t, i);
    SameValue(t, i, NumOf(t, i));
  }

  lemma PartsOf(t: seq<byte>, i: nat)
    requires i <= |t| && SignEnd(t, i) <= IntEnd(t, i)
    ensures var n, c := NumOf(t, i), IntEnd(t, i);
            && (n.negative <==> At(t, i) == 45) && n.whole == t[SignEnd(t, i)..c]
            && n.fraction == FractionOf(t, c) && n.exp == ExpOf(t, FractionEnd(t, c))
  {
    hide IntEnd, FractionOf, ExpOf, FractionEnd;
  }

  lemma SameValue(t: seq<byte>, i: nat, n: Num)
    requires i <= |t| && NumParts(n) && (n.negative <==> At(t, i) == 45) && IntStart(t, i) <= IntEnd(t, i)
    requires DigitsValue(t, IntStart(t, i), IntEnd(t, i)) == Decimal(n.whole)
    requires FractionValue(t, IntEnd(t, i)) == Decimal(n.fraction) as real / Ten(|n.fraction|)
    requires Pow10(ExponentValue(t, FractionEnd(t, IntEnd(t, i)))) == ExpMeans(n.exp)
    ensures NumberValue(t, i) == NumMeans(n)
  {
    hide DigitsValue, Decimal, Pow10, Ten, FractionValue, ExponentValue, ExpMeans, FractionEnd, IntEnd, AllDigits, IntStart;
  }

  lemma LooseHasParts(n: Num)
    requires LooseNum(n)
    ensures NumParts(n)
  {
  }

  /** What is read as a number is one. */
  lemma NumberWas(t: seq<byte>, i: nat) returns (n: Num)
    requires i <= |t| && (At(t, i) == 45 || IsDigit(At(t, i)))
    ensures LooseNum(n) && i <= NumberEnd(t, i) && t[i..NumberEnd(t, i)] == NumText(n) && NumberValue(t, i) == NumMeans(n)
  {
    hide NumberEnd, NumberValue, NumText, NumMeans, LooseNum, NumOf, IntEnd;
    WholeWas(t, i);
    NumTextWas(t, i);
    NumIsLoose(t, i);
    LooseHasParts(NumOf(t, i));
    NumValueWas(t, i);
    n := NumOf(t, i);
  }

  // ---------- Values ----------

  predicate LooseDoc(doc: Doc) {
    match doc
    case DNumber(n) => LooseNum(n)
    case DString(cs) => LooseChars(cs)
    case DArray(pad, elems) => Blanks(pad) && LooseElems(elems)
    case DObject(pad, fields) => Blanks(pad) && LooseFields(fields)
    case _ => true
  }

  predicate LooseElems(es: Elems) {
    es.Elem? ==> LooseDoc(es.doc) && Blanks(es.after) && Blanks(es.before) && LooseElems(es.rest)
  }

  predicate LooseFields(fs: Fields) {
    fs.Field? ==>
      && LooseChars(fs.name) && Blanks(fs.gap) && Blanks(fs.pad) && LooseDoc(fs.doc) && Blanks(fs.after)
      && Blanks(fs.before) && LooseFields(fs.rest)
  }

  function LooseMeans(doc: Doc): Value
    requires LooseDoc(doc)
  {
    match doc
    case DNull => Null
    case DFalse => False
    case DTrue => True
    case DNumber(n) => Number(NumMeans(n))
    case DString(cs) => Str(Transcode(LoosePieces(cs)))
    case DArray(_, elems) => Arr(LooseItems(elems))
    case DObject(_, fields) => Obj(LooseMembers(fields))
  }

  function LooseItems(es: Elems): Items
    requires LooseElems(es)
  {
    if es.NoElems? then NoItems else Item(LooseMeans(es.doc), LooseItems(es.rest))
  }

  function LooseMembers(fs: Fields): Members
    requires LooseFields(fs)
  {
    if fs.NoFields? then NoMembers
    else Member(Transcode(LoosePieces(fs.name)), LooseMeans(fs.doc), LooseMembers(fs.rest))
  }

  lemma {:induction false} SkipWas(t: seq<byte>, i: nat)
    requires i <= |t|
    ensures Blanks(t[i..Skip(t, i)])
    decreases |t| - i
  {
    if 0 < At(t, i) <= 32 {
      SkipWas(t, i + 1);
      assert t[i..Skip(t, i)] == [t[i]] + t[i + 1..Skip(t, i + 1)];
    }
  }

  predicate Writes(t: seq<byte>, i: nat, e: nat, doc: Doc) {
    i <= e <= |t| && if doc.DString? then Spells(t, i, e, doc.cs) else t[i..e] == DocText(doc)
  }

  /** Anything but an array or object. */
  lemma LeafWas(t: seq<byte>, i: nat) returns (doc: Doc)
    requires i <= |t| && ParseValue(t, i).Ok? && At(t, i) != 91 && At(t, i) != 123
    ensures LooseDoc(doc) && Writes(t, i, ParseValue(t, i).end, doc) && ParseValue(t, i).value == LooseMeans(doc)
  {
    hide ParseString, NumberEnd, NumberValue, Spells, Transcode, LooseChars, LooseNum, NumText, NumMeans;
    if HasAt(t, i, NULL_TEXT) {
      doc := DNull;
    } else if HasAt(t, i, FALSE_TEXT) {
      doc := DFalse;
    } else if HasAt(t, i, TRUE_TEXT) {
      doc := DTrue;
    } else if At(t, i) == 34 {
      var cs := StringWas(t, i);
      doc := DString(cs);
    } else {
      var n := NumberWas(t, i);
      doc := DNumber(n);
    }
  }

  /**
   What is read as a value is a text as above, or a string that the end of the text closes, and is read as what that
   means.
   */
  lemma {:induction false} ValueWas(t: seq<byte>, i: nat) returns (doc: Doc)
    requires i <= |t| && ParseValue(t, i).Ok?
    ensures LooseDoc(doc) && Writes(t, i, ParseValue(t, i).end, doc) && ParseValue(t, i).value == LooseMeans(doc)
    decreases |t| - i, 1
  {
    hide ParseValue, LooseDoc, LooseMeans, Writes;
    if At(t, i) == 91 {
      doc := ArrayWas(t, i);
    } else if At(t, i) == 123 {
      doc := ObjectWas(t, i);
    } else {
      doc := LeafWas(t, i);
    }
  }

  lemma {:induction false} ArrayWas(t: seq<byte>, i: nat) returns (doc: Doc)
    requires i < |t| && ParseValue(t, i).Ok? && At(t, i) == 91
    ensures LooseDoc(doc) && Writes(t, i, ParseValue(t, i).end, doc) && ParseValue(t, i).value == LooseMeans(doc)
    decreases |t| - i, 0
  {
    hide Skip, ParseValue, ParseItems, Blanks, LooseElems, ElemsText, LooseItems;
    JsonParse.ArrayValue(t, i);
    var e, p := ParseValue(t, i).end, Skip(t, i + 1);
    var pad := t[i + 1..p];
    SkipWas(t, i + 1);
    if At(t, p) == 93 {
      doc := DArray(pad, NoElems);
      NothingLoose();
      Opened(t, i, p, e);
      OneByte(t, p);
    } else {
      var es := ItemsWere(t, p);
      doc := DArray(pad, es);
      Opened(t, i, p, e);
    }
  }

  lemma {:induction false} ObjectWas(t: seq<byte>, i: nat) returns (doc: Doc)
    requires i < |t| && ParseValue(t, i).Ok? && At(t, i) == 123
    ensures LooseDoc(doc) && Writes(t, i, ParseValue(t, i).end, doc) && ParseValue(t, i).value == LooseMeans(doc)
    decreases |t| - i, 0
  {
    hide Skip, ParseValue, ParseMembers, Blanks, LooseFields, FieldsText, LooseMembers;
    JsonParse.ObjectValue(t, i);
    var e, p := ParseValue(t, i).end, Skip(t, i + 1);
    var pad := t[i + 1..p];
    SkipWas(t, i + 1);
    if At(t, p) == 125 {
      doc := DObject(pad, NoFields);
      NothingLoose();
      Opened(t, i, p, e);
      OneByte(t, p);
    } else {
      var fs := MembersWere(t, p);
      doc := DObject(pad, fs);
      Opened(t, i, p, e);
    }
  }

  lemma OneByte(t: seq<byte>, p: nat)
    requires p < |t|
    ensures t[p..p + 1] == [t[p]]
  {
  }

  lemma Opened(t: seq<byte>, i: nat, p: nat, e: nat)
    requires i < p <= e <= |t|
    ensures t[i..e] == [t[i]] + (t[i + 1..p] + t[p..e])
  {
    assert t[i + 1..e] == t[i + 1..p] + t[p..e];
  }

  lemma NothingLoose()
    ensures LooseElems(NoElems) && LooseFields(NoFields) && LooseItems(NoElems) == NoItems
    ensures LooseMembers(NoFields) == NoMembers
  {
  }

  /** What ends where something else than the text goes on is written in full. */
  lemma WrittenInFull(t: seq<byte>, i: nat, e: nat, doc: Doc)
    requires Writes(t, i, e, doc) && At(t, Skip(t, e)) != 0
    ensures t[i..e] == DocText(doc)
  {
  }

  /** How a list of values has been read. */
  lemma ItemsInto(t: seq<byte>, i: nat)
    requires i <= |t| && ParseItems(t, i).Ok?
    ensures var r := ParseValue(t, i);
            && r.Ok?
            && var p := Skip(t, r.end);
            && (At(t, p) == 93 || At(t, p) == 44)
            && (At(t, p) == 93 ==> ParseItems(t, i) == Ok(Item(r.value, NoItems), p + 1))
            && (At(t, p) == 44 ==>
                  var m := ParseItems(t, Skip(t, p + 1));
                  m.Ok? && ParseItems(t, i) == Ok(Item(r.value, m.value), m.end))
  {
    hide Skip, ParseValue;
  }

  lemma {:induction false} ItemsWere(t: seq<byte>, i: nat) returns (es: Elems)
    requires i <= |t| && ParseItems(t, i).Ok?
    ensures es.Elem? && LooseElems(es)
    ensures t[i..ParseItems(t, i).end] == ElemsText(es) && ParseItems(t, i).value == LooseItems(es)
    decreases |t| - i, 2
  {
    hide Skip, ParseValue, ParseItems, Blanks, LooseDoc, LooseMeans, Writes, DocText;
    ItemsInto(t, i);
    var doc := ValueWas(t, i);
    var e := ParseValue(t, i).end;
    var p := Skip(t, e);
    SkipWas(t, e);
    WrittenInFull(t, i, e, doc);
    if At(t, p) == 93 {
      es := Elem(doc, t[e..p], [], NoElems);
      NoBlanks();
      Closed(t, i, e, p, p + 1);
      OneByte(t, p);
    } else {
      var q := Skip(t, p + 1);
      SkipWas(t, p + 1);
      var rest := ItemsWere(t, q);
      var end := ParseItems(t, q).end;
      es := Elem(doc, t[e..p], t[p + 1..q], rest);
      Closed(t, i, e, p, end);
      Opened(t, p, q, end);
    }
  }

  lemma Closed(t: seq<byte>, i: nat, e: nat, p: nat, end: nat)
    requires i <= e <= p <= end <= |t|
    ensures t[i..end] == t[i..e] + (t[e..p] + t[p..end])
  {
    assert t[e..end] == t[e..p] + t[p..end];
  }

  lemma NoBlanks()
    ensures Blanks([])
  {
  }

  /** How a list of members has been read. */
  lemma MembersInto(t: seq<byte>, i: nat)
    requires i <= |t| && ParseMembers(t, i).Ok?
    ensures ParseString(t, i).Ok?
    ensures var c := Skip(t, ParseString(t, i).end);
            && At(t, c) == 58
            && var r := ParseValue(t, Skip(t, c + 1));
            && r.Ok?
            && var p := Skip(t, r.end);
            && (At(t, p) == 125 || At(t, p) == 44)
            && (At(t, p) == 125 ==>
                  ParseMembers(t, i) == Ok(Member(ParseString(t, i).value, r.value, NoMembers), p + 1))
            && (At(t, p) == 44 ==>
                  var m := ParseMembers(t, Skip(t, p + 1));
                  m.Ok? && ParseMembers(t, i) == Ok(Member(ParseString(t, i).value, r.value, m.value), m.end))
  {
    hide Skip, ParseValue, ParseString;
  }

  lemma {:induction false} MembersWere(t: seq<byte>, i: nat) returns (fs: Fields)
    requires i <= |t| && ParseMembers(t, i).Ok?
    ensures fs.Field? && LooseFields(fs)
    ensures t[i..ParseMembers(t, i).end] == FieldsText(fs) && ParseMembers(t, i).value == LooseMembers(fs)
    decreases |t| - i, 2
  {
    hide Skip, ParseValue, ParseString, ParseMembers, Blanks, LooseDoc, LooseMeans, Writes, DocText, NameText, Spells,
         LooseChars, Transcode, LooseFields, FieldsText, LooseMembers;
    MembersInto(t, i);
    var b := ParseString(t, i).end;
    var c := Skip(t, b);
    var a := Skip(t, c + 1);
    var name := NameWas(t, i);
    var doc := ValueWas(t, a);
    var e := ParseValue(t, a).end;
    var p := Skip(t, e);
    SkipWas(t, b);
    SkipWas(t, c + 1);
    SkipWas(t, e);
    WrittenInFull(t, a, e, doc);
    if At(t, p) == 125 {
      NoBlanks();
      OneByte(t, p);
      fs := MemberFrom(t, i, b, c, a, e, p, p + 1, name, doc, [], NoFields);
    } else {
      var q := Skip(t, p + 1);
      SkipWas(t, p + 1);
      var rest := MembersWere(t, q);
      var end := ParseMembers(t, q).end;
      Opened(t, p, q, end);
      fs := MemberFrom(t, i, b, c, a, e, p, end, name, doc, t[p + 1..q], rest);
    }
  }

  /** A member from its parts. */
  lemma OneField(name: seq<Char>, gap: seq<byte>, pad: seq<byte>, doc: Doc, after: seq<byte>, before: seq<byte>,
                 rest: Fields, tail: seq<byte>)
    returns (fs: Fields)
    requires LooseChars(name) && Blanks(gap) && Blanks(pad) && LooseDoc(doc) && Blanks(after) && Blanks(before)
    requires rest.NoFields? || LooseFields(rest)
    requires tail == if rest.NoFields? then [125] else [44] + (before + FieldsText(rest))
    ensures fs.Field? && LooseFields(fs)
    ensures FieldsText(fs) == NameText(name) + (gap + ([58] + (pad + (DocText(doc) + (after + tail)))))
    ensures rest.NoFields? ==>
              LooseMembers(fs) == Member(Transcode(LoosePieces(name)), LooseMeans(doc), NoMembers)
    ensures rest.Field? ==>
              LooseMembers(fs) == Member(Transcode(LoosePieces(name)), LooseMeans(doc), LooseMembers(rest))
  {
    hide Blanks, LooseDoc, LooseMeans, DocText, NameText, LooseChars, Transcode;
    fs := Field(name, gap, pad, doc, after, before, rest);
  }

  /** A member that stands in the text. */
  lemma MemberFrom(t: seq<byte>, i: nat, b: nat, c: nat, a: nat, e: nat, p: nat, end: nat, name: seq<Char>, doc: Doc,
                   before: seq<byte>, rest: Fields)
    returns (fs: Fields)
    requires i <= b <= c < a <= e <= p <= end <= |t| && t[c] == 58
    requires t[i..b] == NameText(name) && t[a..e] == DocText(doc)
    requires LooseChars(name) && Blanks(t[b..c]) && Blanks(t[c + 1..a]) && LooseDoc(doc) && Blanks(t[e..p])
    requires Blanks(before) && (rest.NoFields? || LooseFields(rest))
    requires t[p..end] == if rest.NoFields? then [125] else [44] + (before + FieldsText(rest))
    ensures fs.Field? && LooseFields(fs) && t[i..end] == FieldsText(fs)
    ensures LooseMembers(fs) ==
            Member(Transcode(LoosePieces(name)), LooseMeans(doc), if rest.NoFields? then NoMembers else LooseMembers(rest))
  {
    hide Blanks, LooseDoc, LooseMeans, DocText, NameText, LooseChars, Transcode, LooseFields, FieldsText, LooseMembers;
    MemberPieces(t, i, b, c, a, e, p, end);
    fs := OneField(name, t[b..c], t[c + 1..a], doc, t[e..p], before, rest, t[p..end]);
  }

  lemma MemberPieces(t: seq<byte>, i: nat, b: nat, c: nat, a: nat, e: nat, p: nat, end: nat)
    requires i <= b <= c < a <= e <= p <= end <= |t| && t[c] == 58
    ensures t[i..end] == t[i..b] + (t[b..c] + ([58] + (t[c + 1..a] + (t[a..e] + (t[e..p] + t[p..end])))))
  {
    assert t[e..end] == t[e..p] + t[p..end];
    assert t[a..end] == t[a..e] + t[e..end];
    assert t[c + 1..end] == t[c + 1..a] + t[a..end];
    assert t[c..end] == [58] + t[c + 1..end];
    assert t[b..end] == t[b..c] + t[c..end];
  }

  lemma NameWas(t: seq<byte>, i: nat) returns (cs: seq<Char>)
    requires i <= |t| && ParseString(t, i).Ok? && At(t, Skip(t, ParseString(t, i).end)) != 0
    ensures LooseChars(cs) && ParseString(t, i).value == Transcode(LoosePieces(cs))
    ensures t[i..ParseString(t, i).end] == NameText(cs)
  {
    hide LooseChars, Transcode, NameText, ParseString;
    cs := StringWas(t, i);
  }
}
