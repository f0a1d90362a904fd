/**
 Where a text stops being JSON: a text that follows the grammar up to some byte, inside any number of arrays and objects,
 and has something wrong there, is refused, and the place reported is that byte.  What stands behind it does not matter.
 */
module JsonErrors {
  import opened Bytes
  import opened JsonText
  import opened JsonRoundTrip
  import opened JsonGrammar

  /** The way to the byte that is wrong: no value begins there, or it is inside an array or an object. */
  datatype Flaw =
    | NoValue
    | InArray(pad: seq<byte>, list: List)
    | InObject(pad: seq<byte>, table: Table)

  /** Complete values; then one with a flaw, or neither a comma nor a bracket behind the last. */
  datatype List =
    | BadValue(flaw: Flaw)
    | NoComma(doc: Doc, after: seq<byte>)
    | More(doc: Doc, after: seq<byte>, before: seq<byte>, rest: List)

  /** Complete members; then no name, no colon, a value with a flaw, or neither a comma nor a brace behind the last. */
  datatype Table =
    | NoName
    | NoColon(name: seq<Char>, gap: seq<byte>)
    | BadMember(name: seq<Char>, gap: seq<byte>, pad: seq<byte>, flaw: Flaw)
    | NoBrace(name: seq<Char>, gap: seq<byte>, pad: seq<byte>, doc: Doc, after: seq<byte>)
    | Others(name: seq<Char>, gap: seq<byte>, pad: seq<byte>, doc: Doc, after: seq<byte>, before: seq<byte>, rest: Table)

  predicate FlawOk(f: Flaw) {
    match f
    case NoValue => true
    case InArray(pad, list) => Blanks(pad) && ListOk(list)
    case InObject(pad, table) => Blanks(pad) && TableOk(table)
  }

  predicate ListOk(l: List) {
    match l
    case BadValue(flaw) => FlawOk(flaw)
    case NoComma(doc, after) => DocOk(doc) && Blanks(after)
    case More(doc, after, before, rest) => DocOk(doc) && Blanks(after) && Blanks(before) && ListOk(rest)
  }

  predicate TableOk(m: Table) {
    match m
    case NoName => true
    case NoColon(name, gap) => CharsOk(name) && Blanks(gap)
    case BadMember(name, gap, pad, flaw) => CharsOk(name) && Blanks(gap) && Blanks(pad) && FlawOk(flaw)
    case NoBrace(name, gap, pad, doc, after) =>
      CharsOk(name) && Blanks(gap) && Blanks(pad) && DocOk(doc) && Blanks(after)
    case Others(name, gap, pad, doc, after, before, rest) =>
      CharsOk(name) && Blanks(gap) && Blanks(pad) && DocOk(doc) && Blanks(after) && Blanks(before) && TableOk(rest)
  }

  /** The text up to the byte that is wrong. */
  function FlawText(f: Flaw): seq<byte> {
    match f
    case NoValue => []
    case InArray(pad, list) => [91] + (pad + ListText(list))
    case InObject(pad, table) => [123] + (pad + TableText(table))
  }

  function ListText(l: List): seq<byte> {
    match l
    case BadValue(flaw) => FlawText(flaw)
    case NoComma(doc, after) => DocText(doc) + after
    case More(doc, after, before, rest) => DocText(doc) + (after + ([44] + (before + ListText(rest))))
  }

  function TableText(m: Table): seq<byte> {
    match m
    case NoName => []
    case NoColon(name, gap) => NameText(name) + gap
    case BadMember(name, gap, pad, flaw) => NameText(name) + (gap + ([58] + (pad + FlawText(flaw))))
    case NoBrace(name, gap, pad, doc, after) => NameText(name) + (gap + ([58] + (pad + (DocText(doc) + after))))
    case Others(name, gap, pad, doc, after, before, rest) =>
      NameText(name) + (gap + ([58] + (pad + (DocText(doc) + (after + ([44] + (before + TableText(rest))))))))
  }

  predicate IsBlankByte(c: byte) {
    1 <= c <= 32
  }

  /** No value begins at p: no bracket, quote, minus sign, digit or word. */
  predicate BeginsNone(t: seq<byte>, p: nat) {
    var c := At(t, p);
    && c != 34 && c != 45 && c != 91 && c != 123 && !(48 <= c <= 57)
    && !HasAt(t, p, [110, 117, 108, 108]) && !HasAt(t, p, [102, 97, 108, 115, 101]) && !HasAt(t, p, [116, 114, 117, 101])
  }

  /** What is wrong at p; c is the bracket that might close what the flaw is in (93 or 125), or 0. */
  predicate Wrong(t: seq<byte>, p: nat, f: Flaw, c: byte) {
    match f
    case NoValue => BeginsNone(t, p) && !IsBlankByte(At(t, p)) && (c != 0 ==> At(t, p) != c)
    case InArray(_, list) => ListWrong(t, p, list, 93)
    case InObject(_, table) => TableWrong(t, p, table, 125)
  }

  predicate ListWrong(t: seq<byte>, p: nat, l: List, c: byte) {
    match l
    case BadValue(flaw) => Wrong(t, p, flaw, c)
    case NoComma(doc, after) => EndsNone(t, p, doc, after, 93)
    case More(_, _, _, rest) => ListWrong(t, p, rest, 0)
  }

  /** Behind a value: no comma, and not the bracket that closes; nothing that belongs to a number. */
  predicate EndsNone(t: seq<byte>, p: nat, doc: Doc, after: seq<byte>, close: byte) {
    && At(t, p) != 44 && At(t, p) != close && !IsBlankByte(At(t, p))
    && (doc.DNumber? && after == [] ==> Behind(At(t, p)))
  }

  predicate TableWrong(t: seq<byte>, p: nat, m: Table, c: byte) {
    match m
    case NoName => At(t, p) != 34 && !IsBlankByte(At(t, p)) && (c != 0 ==> At(t, p) != c)
    case NoColon(_, _) => At(t, p) != 58 && !IsBlankByte(At(t, p))
    case BadMember(_, _, _, flaw) => Wrong(t, p, flaw, 0)
    case NoBrace(_, _, _, doc, after) => EndsNone(t, p, doc, after, 125)
    case Others(_, _, _, _, _, _, rest) => TableWrong(t, p, rest, 0)
  }

  // ---------- Steps of the parser ----------

  lemma PadsThen(t: seq<byte>, i: nat, ws: seq<byte>)
    requires HasAt(t, i, ws) && Blanks(ws) && !IsBlankByte(At(t, i + |ws|))
    ensures i + |ws| <= |t| && Skip(t, i) == i + |ws|
    ensures ws != [] ==> Behind(At(t, i))
  {
    hide HasAt, Skip;
    TextInside(t, i, ws);
    assert Blank(ws);
    SkipBlank(t, i, ws);
    NoSkip(t, i + |ws|);
    if ws != [] {
      HasAtByte(t, i, ws, 0);
    }
  }

  lemma NothingBegins(t: seq<byte>, i: nat)
    requires i <= |t| && BeginsNone(t, i)
    ensures ParseValue(t, i) == Fail(i)
  {
    hide HasAt;
  }

  lemma ListFails(t: seq<byte>, i: nat, at: nat)
    requires i < |t| && At(t, i) == 91
    requires At(t, Skip(t, i + 1)) != 93 && ParseItems(t, Skip(t, i + 1)) == Fail(at)
    ensures ParseValue(t, i) == Fail(at)
  {
    hide Skip, ParseItems, HasAt;
    NotAWord(t, i);
  }

  lemma TableFails(t: seq<byte>, i: nat, at: nat)
    requires i < |t| && At(t, i) == 123
    requires At(t, Skip(t, i + 1)) != 125 && ParseMembers(t, Skip(t, i + 1)) == Fail(at)
    ensures ParseValue(t, i) == Fail(at)
  {
    hide Skip, ParseMembers, HasAt;
    NotAWord(t, i);
  }

  lemma ValueFails(t: seq<byte>, i: nat, at: nat)
    requires i <= |t| && ParseValue(t, i) == Fail(at)
    ensures ParseItems(t, i) == Fail(at)
  {
    hide ParseValue, Skip;
  }

  lemma NoCommaFails(t: seq<byte>, i: nat, v: Value, e: nat)
    requires i <= |t| && e <= |t| && ParseValue(t, i) == Ok(v, e)
    requires At(t, Skip(t, e)) != 44 && At(t, Skip(t, e)) != 93
    ensures ParseItems(t, i) == Fail(Skip(t, e))
  {
    hide ParseValue, Skip;
  }

  lemma RestFails(t: seq<byte>, i: nat, v: Value, e: nat, at: nat)
    requires i <= |t| && e <= |t| && ParseValue(t, i) == Ok(v, e)
    requires At(t, Skip(t, e)) == 44 && ParseItems(t, Skip(t, Skip(t, e) + 1)) == Fail(at)
    ensures ParseItems(t, i) == Fail(at)
  {
    hide ParseValue, Skip;
  }

  lemma NameFails(t: seq<byte>, i: nat)
    requires i <= |t| && At(t, i) != 34
    ensures ParseMembers(t, i) == Fail(i)
  {
    hide ParseValue, Skip;
  }

  lemma ColonFails(t: seq<byte>, i: nat, name: seq<byte>, b: nat)
    requires i <= |t| && b <= |t| && ParseString(t, i) == Ok(name, b) && At(t, Skip(t, b)) != 58
    ensures ParseMembers(t, i) == Fail(Skip(t, b))
  {
    hide ParseValue, Skip, ParseString;
  }

  lemma MemberFails(t: seq<byte>, i: nat, name: seq<byte>, b: nat, at: nat)
    requires i <= |t| && b <= |t| && ParseString(t, i) == Ok(name, b) && At(t, Skip(t, b)) == 58
    requires ParseValue(t, Skip(t, Skip(t, b) + 1)) == Fail(at)
    ensures ParseMembers(t, i) == Fail(at)
  {
    hide ParseValue, Skip, ParseString;
  }

  lemma BraceFails(t: seq<byte>, i: nat, name: seq<byte>, b: nat, v: Value, e: nat)
    requires i <= |t| && b <= |t| && ParseString(t, i) == Ok(name, b) && At(t, Skip(t, b)) == 58
    requires e <= |t| && ParseValue(t, Skip(t, Skip(t, b) + 1)) == Ok(v, e)
    requires At(t, Skip(t, e)) != 44 && At(t, Skip(t, e)) != 125
    ensures ParseMembers(t, i) == Fail(Skip(t, e))
  {
    hide ParseValue, Skip, ParseString;
  }

  lemma OthersFail(t: seq<byte>, i: nat, name: seq<byte>, b: nat, v: Value, e: nat, at: nat)
    requires i <= |t| && b <= |t| && ParseString(t, i) == Ok(name, b) && At(t, Skip(t, b)) == 58
    requires e <= |t| && ParseValue(t, Skip(t, Skip(t, b) + 1)) == Ok(v, e)
    requires At(t, Skip(t, e)) == 44 && ParseMembers(t, Skip(t, Skip(t, e) + 1)) == Fail(at)
    ensures ParseMembers(t, i) == Fail(at)
  {
    hide ParseValue, Skip, ParseString;
  }

  // ---------- The place of the flaw ----------

  /** Where a flawed value begins there is no blank, and the closing bracket only if that is not what is wrong. */
  lemma FlawStart(t: seq<byte>, i: nat, f: Flaw, c: byte)
    requires HasAt(t, i, FlawText(f)) && FlawOk(f) && Wrong(t, i + |FlawText(f)|, f, c)
    ensures i <= |t| && !IsBlankByte(At(t, i))
    ensures c == 93 || c == 125 ==> At(t, i) != c
  {
    hide HasAt, ListText, TableText, ListWrong, TableWrong, BeginsNone;
    TextInside(t, i, FlawText(f));
    if !f.NoValue? {
      HasAtByte(t, i, FlawText(f), 0);
    }
  }

  lemma ListStart(t: seq<byte>, i: nat, l: List, c: byte)
    requires HasAt(t, i, ListText(l)) && ListOk(l) && ListWrong(t, i + |ListText(l)|, l, c)
    ensures i <= |t| && !IsBlankByte(At(t, i))
    ensures c == 93 ==> At(t, i) != 93
  {
    hide HasAt, DocText, FlawText, Wrong, FlawOk, DocOk, Blanks;
    TextInside(t, i, ListText(l));
    match l
    case BadValue(flaw) => FlawStart(t, i, flaw, c);
    case NoComma(doc, after) =>
      DocStart(doc);
      HasAtByte(t, i, ListText(l), 0);
    case More(doc, _, _, _) =>
      DocStart(doc);
      HasAtByte(t, i, ListText(l), 0);
  }

  lemma TableStart(t: seq<byte>, i: nat, m: Table, c: byte)
    requires HasAt(t, i, TableText(m)) && TableOk(m) && TableWrong(t, i + |TableText(m)|, m, c)
    ensures i <= |t| && !IsBlankByte(At(t, i))
    ensures c == 125 ==> At(t, i) != 125
  {
    hide HasAt, DocText, FlawText, Wrong, FlawOk, DocOk, Blanks, CharsText, CharsOk;
    TextInside(t, i, TableText(m));
    if !m.NoName? {
      assert TableText(m)[0] == NameText(m.name)[0] == 34;
      HasAtByte(t, i, TableText(m), 0);
    }
  }

  /** A value with a flaw is not read, and the place reported is that of the flaw. */
  lemma {:induction false} FlawIsFound(t: seq<byte>, i: nat, f: Flaw, c: byte)
    requires HasAt(t, i, FlawText(f)) && FlawOk(f) && Wrong(t, i + |FlawText(f)|, f, c)
    ensures i + |FlawText(f)| <= |t| && ParseValue(t, i) == Fail(i + |FlawText(f)|)
    decreases f
  {
    hide HasAt, ParseValue, Skip, Blanks, ParseItems, ParseMembers, ListText, TableText, ListOk, TableOk, ListWrong,
         TableWrong, BeginsNone;
    TextInside(t, i, FlawText(f));
    match f
    case NoValue => NothingBegins(t, i);
    case InArray(pad, list) =>
      HasAtSplit(t, i, [91], pad + ListText(list));
      HasAtByte(t, i, [91], 0);
      HasAtSplit(t, i + 1, pad, ListText(list));
      ListStart(t, i + 1 + |pad|, list, 93);
      PadsThen(t, i + 1, pad);
      ListFlawIsFound(t, i + 1 + |pad|, list, 93);
      ListFails(t, i, i + |FlawText(f)|);
    case InObject(pad, table) =>
      HasAtSplit(t, i, [123], pad + TableText(table));
      HasAtByte(t, i, [123], 0);
      HasAtSplit(t, i + 1, pad, TableText(table));
      TableStart(t, i + 1 + |pad|, table, 125);
      PadsThen(t, i + 1, pad);
      TableFlawIsFound(t, i + 1 + |pad|, table, 125);
      TableFails(t, i, i + |FlawText(f)|);
  }

  lemma {:induction false} ListFlawIsFound(t: seq<byte>, i: nat, l: List, c: byte)
    requires HasAt(t, i, ListText(l)) && ListOk(l) && ListWrong(t, i + |ListText(l)|, l, c)
    ensures i + |ListText(l)| <= |t| && ParseItems(t, i) == Fail(i + |ListText(l)|)
    decreases l
  {
    hide HasAt, ParseValue, Skip, Blanks, ParseItems, DocText, DocOk, FlawText, FlawOk, Wrong, DocMeans, Behind;
    TextInside(t, i, ListText(l));
    match l
    case BadValue(flaw) =>
      FlawIsFound(t, i, flaw, c);
      ValueFails(t, i, i + |FlawText(flaw)|);
    case NoComma(doc, after) =>
      var e := i + |DocText(doc)|;
      HasAtSplit(t, i, DocText(doc), after);
      PadsThen(t, e, after);
      DocIsRead(t, i, doc);
      NoCommaFails(t, i, DocMeans(doc), e);
    case More(doc, after, before, rest) =>
      var e := i + |DocText(doc)|;
      var p := e + |after|;
      HasAtSplit(t, i, DocText(doc), after + ([44] + (before + ListText(rest))));
      CommaThen(t, e, after, before, ListText(rest));
      ListStart(t, p + 1 + |before|, rest, 0);
      PadsThen(t, p + 1, before);
      DocIsRead(t, i, doc);
      ListFlawIsFound(t, p + 1 + |before|, rest, 0);
      RestFails(t, i, DocMeans(doc), e, i + |ListText(l)|);
  }

  /** Blanks, a comma, blanks, and what follows. */
  lemma CommaThen(t: seq<byte>, e: nat, after: seq<byte>, before: seq<byte>, f: seq<byte>)
    requires HasAt(t, e, after + ([44] + (before + f))) && Blanks(after)
    ensures var p := e + |after|;
            && p < |t| && Skip(t, e) == p && At(t, p) == 44 && Behind(At(t, e))
            && HasAt(t, p + 1, before) && HasAt(t, p + 1 + |before|, f)
  {
    hide HasAt, Skip, Blanks;
    PastBlanks(t, e, after, [44] + (before + f));
    HasAtSplit(t, e + |after|, [44], before + f);
    HasAtSplit(t, e + |after| + 1, before, f);
  }

  /** A name, blanks, a colon and blanks. */
  lemma NameThen(t: seq<byte>, i: nat, name: seq<Char>, gap: seq<byte>, pad: seq<byte>, f: seq<byte>)
    requires HasAt(t, i, NameText(name) + (gap + ([58] + (pad + f)))) && CharsOk(name) && Blanks(gap) && Blanks(pad)
    requires !IsBlankByte(At(t, i + |NameText(name)| + |gap| + 1 + |pad|))
    ensures var b := i + |NameText(name)|;
            var q := b + |gap|;
            && q < |t| && ParseString(t, i) == Ok(CharsMean(name), b) && Skip(t, b) == q && At(t, q) == 58
            && q + 1 + |pad| <= |t| && Skip(t, q + 1) == q + 1 + |pad| && HasAt(t, q + 1 + |pad|, f)
  {
    hide HasAt, Skip, Blanks, ParseString, CharsMean, CharsOk, NameText;
    var b := i + |NameText(name)|;
    HasAtSplit(t, i, NameText(name), gap + ([58] + (pad + f)));
    StringIsRead(t, i, name);
    NameLength(name);
    ColonThen(t, b, gap, pad, f);
    PadsThen(t, b + |gap| + 1, pad);
  }

  lemma ColonThen(t: seq<byte>, b: nat, gap: seq<byte>, pad: seq<byte>, f: seq<byte>)
    requires HasAt(t, b, gap + ([58] + (pad + f))) && Blanks(gap)
    ensures var q := b + |gap|;
            && q < |t| && Skip(t, b) == q && At(t, q) == 58 && HasAt(t, q + 1, pad) && HasAt(t, q + 1 + |pad|, f)
  {
    hide HasAt, Skip, Blanks;
    PastBlanks(t, b, gap, [58] + (pad + f));
    HasAtSplit(t, b + |gap|, [58], pad + f);
    HasAtSplit(t, b + |gap| + 1, pad, f);
  }

  lemma {:induction false} TableFlawIsFound(t: seq<byte>, i: nat, m: Table, c: byte)
    requires HasAt(t, i, TableText(m)) && TableOk(m) && TableWrong(t, i + |TableText(m)|, m, c)
    ensures i + |TableText(m)| <= |t| && ParseMembers(t, i) == Fail(i + |TableText(m)|)
    decreases m
  {
    hide HasAt, ParseValue, Skip, Blanks, ParseMembers, ParseString, DocText, DocOk, FlawText, FlawOk, Wrong, DocMeans,
         Behind, CharsMean, CharsOk, NameText;
    TextInside(t, i, TableText(m));
    match m
    case NoName => NameFails(t, i);
    case NoColon(name, gap) =>
      var b := i + |NameText(name)|;
      HasAtSplit(t, i, NameText(name), gap);
      StringIsRead(t, i, name);
      NameLength(name);
      PadsThen(t, b, gap);
      ColonFails(t, i, CharsMean(name), b);
    case BadMember(name, gap, pad, flaw) =>
      var b := i + |NameText(name)|;
      var a := b + |gap| + 1 + |pad|;
      NameFront(t, i, name, gap, pad, FlawText(flaw));
      FlawStart(t, a, flaw, 0);
      NameThen(t, i, name, gap, pad, FlawText(flaw));
      FlawIsFound(t, a, flaw, 0);
      MemberFails(t, i, CharsMean(name), b, a + |FlawText(flaw)|);
    case NoBrace(name, gap, pad, doc, after) =>
      NoBraceIsFound(t, i, name, gap, pad, doc, after);
    case Others(name, gap, pad, doc, after, before, rest) =>
      OthersFlawIsFound(t, i, m);
  }

  lemma NoBraceIsFound(t: seq<byte>, i: nat, name: seq<Char>, gap: seq<byte>, pad: seq<byte>, doc: Doc,
                       after: seq<byte>)
    requires TableOk(NoBrace(name, gap, pad, doc, after))
    requires var text := NameText(name) + (gap + ([58] + (pad + (DocText(doc) + after))));
             HasAt(t, i, text) && EndsNone(t, i + |text|, doc, after, 125)
    ensures var text := NameText(name) + (gap + ([58] + (pad + (DocText(doc) + after))));
            i + |text| <= |t| && ParseMembers(t, i) == Fail(i + |text|)
  {
    hide HasAt, ParseValue, Skip, Blanks, ParseMembers, ParseString, DocText, DocOk, DocMeans, Behind, CharsMean, CharsOk,
         NameText;
    var b := i + |NameText(name)|;
    var a := b + |gap| + 1 + |pad|;
    NameFront(t, i, name, gap, pad, DocText(doc) + after);
    ValueBegins(t, a, doc, after);
    NameThen(t, i, name, gap, pad, DocText(doc) + after);
    HasAtSplit(t, a, DocText(doc), after);
    PadsThen(t, a + |DocText(doc)|, after);
    DocIsRead(t, a, doc);
    BraceFails(t, i, CharsMean(name), b, DocMeans(doc), a + |DocText(doc)|);
  }

  lemma OthersUnfold(m: Table)
    requires m.Others? && TableOk(m)
    ensures TableText(m) ==
            NameText(m.name) + (m.gap + ([58] + (m.pad + (DocText(m.doc) + (m.after
            + ([44] + (m.before + TableText(m.rest))))))))
    ensures CharsOk(m.name) && Blanks(m.gap) && Blanks(m.pad) && DocOk(m.doc) && Blanks(m.after) && Blanks(m.before)
    ensures TableOk(m.rest)
  {
    hide NameText, DocText, DocOk, CharsOk, Blanks;
  }

  lemma {:induction false} OthersFlawIsFound(t: seq<byte>, i: nat, m: Table)
    requires m.Others? && HasAt(t, i, TableText(m)) && TableOk(m) && TableWrong(t, i + |TableText(m)|, m.rest, 0)
    ensures i + |TableText(m)| <= |t| && ParseMembers(t, i) == Fail(i + |TableText(m)|)
    decreases m, 0
  {
    hide HasAt, ParseValue, Skip, Blanks, ParseMembers, ParseString, DocText, DocOk, DocMeans, Behind, CharsMean, CharsOk,
         NameText, TableText, TableOk, TableWrong;
    OthersUnfold(m);
    var d, rest := DocText(m.doc), TableText(m.rest);
    var b := i + |NameText(m.name)|;
    var a := b + |m.gap| + 1 + |m.pad|;
    var e := a + |d|;
    var p := e + |m.after|;
    var tail := m.after + ([44] + (m.before + rest));
    NameFront(t, i, m.name, m.gap, m.pad, d + tail);
    ValueBegins(t, a, m.doc, tail);
    NameThen(t, i, m.name, m.gap, m.pad, d + tail);
    HasAtSplit(t, a, d, tail);
    CommaThen(t, e, m.after, m.before, rest);
    TableStart(t, p + 1 + |m.before|, m.rest, 0);
    PadsThen(t, p + 1, m.before);
    DocIsRead(t, a, m.doc);
    TableFlawIsFound(t, p + 1 + |m.before|, m.rest, 0);
    TextInside(t, p + 1 + |m.before|, rest);
    OthersFail(t, i, CharsMean(m.name), b, DocMeans(m.doc), e, i + |TableText(m)|);
  }

  lemma NameFront(t: seq<byte>, i: nat, name: seq<Char>, gap: seq<byte>, pad: seq<byte>, f: seq<byte>)
    requires HasAt(t, i, NameText(name) + (gap + ([58] + (pad + f))))
    ensures HasAt(t, i + |NameText(name)| + |gap| + 1 + |pad|, f)
  {
    hide HasAt, NameText;
    HasAtSplit(t, i, NameText(name), gap + ([58] + (pad + f)));
    HasAtSplit(t, i + |NameText(name)|, gap, [58] + (pad + f));
    HasAtSplit(t, i + |NameText(name)| + |gap|, [58], pad + f);
    HasAtSplit(t, i + |NameText(name)| + |gap| + 1, pad, f);
  }

  lemma ValueBegins(t: seq<byte>, a: nat, doc: Doc, tail: seq<byte>)
    requires HasAt(t, a, DocText(doc) + tail) && DocOk(doc)
    ensures !IsBlankByte(At(t, a))
  {
    hide HasAt, DocText, DocOk;
    DocStart(doc);
    HasAtByte(t, a, DocText(doc) + tail, 0);
  }

  // ---------- Whole texts ----------

  /** A text that is wrong is refused, and the error pointer is where it is wrong. */
  lemma TextIsRefused(before: seq<byte>, f: Flaw, rest: seq<byte>, whole: bool)
    requires Blanks(before) && FlawOk(f)
    requires Wrong(before + FlawText(f) + rest, |before| + |FlawText(f)|, f, 0)
    ensures Parse(before + FlawText(f) + rest, whole) == Fail(|before| + |FlawText(f)|)
  {
    hide HasAt, Skip, ParseValue, FlawText, Blanks, FlawOk, Wrong;
    var t := before + FlawText(f) + rest;
    IsWhole(t);
    assert t == before + (FlawText(f) + rest);
    HasAtSplit(t, 0, before, FlawText(f) + rest);
    HasAtSplit(t, |before|, FlawText(f), rest);
    FlawStart(t, |before|, f, 0);
    PadsThen(t, 0, before);
    FlawIsFound(t, |before|, f, 0);
  }

  /** What stands behind a value: the place right behind it is reported, or what is there if nothing may be. */
  lemma TextIsFollowed(before: seq<byte>, doc: Doc, after: seq<byte>, rest: seq<byte>)
    requires DocOk(doc) && Blanks(before) && Blanks(after)
    requires rest != [] && rest[0] != 0 && !IsBlankByte(rest[0])
    requires doc.DNumber? && after == [] ==> Behind(rest[0])
    ensures var t := before + DocText(doc) + after + rest;
            && Parse(t, false) == Ok(DocMeans(doc), |before| + |DocText(doc)|)
            && Parse(t, true) == Fail(|before| + |DocText(doc)| + |after|)
  {
    hide *;
    var t := before + DocText(doc) + after + rest;
    IsWhole(t);
    Regroup(before, DocText(doc), after, rest);
    FollowedAt(t, before, doc, after, rest);
  }

  lemma FollowedAt(t: seq<byte>, before: seq<byte>, doc: Doc, after: seq<byte>, rest: seq<byte>)
    requires HasAt(t, 0, before + (DocText(doc) + (after + rest)))
    requires DocOk(doc) && Blanks(before) && Blanks(after)
    requires rest != [] && rest[0] != 0 && !IsBlankByte(rest[0])
    requires doc.DNumber? && after == [] ==> Behind(rest[0])
    ensures Parse(t, false) == Ok(DocMeans(doc), |before| + |DocText(doc)|)
    ensures Parse(t, true) == Fail(|before| + |DocText(doc)| + |after|)
  {
    hide HasAt, Skip, ParseValue, DocText, DocMeans, Behind, Blanks, DocOk, Parse;
    var b, e := |before|, |before| + |DocText(doc)|;
    HasAtSplit(t, 0, before, DocText(doc) + (after + rest));
    ValueBegins(t, b, doc, after + rest);
    PadsThen(t, 0, before);
    ThenRest(t, b, DocText(doc), after, rest);
    PadsThen(t, e, after);
    DocIsRead(t, b, doc);
    EndsFrom(t, DocMeans(doc), b, e, e + |after|);
  }

  lemma ThenRest(t: seq<byte>, i: nat, f: seq<byte>, after: seq<byte>, rest: seq<byte>)
    requires HasAt(t, i, f + (after + rest)) && rest != []
    ensures HasAt(t, i, f) && HasAt(t, i + |f|, after) && i + |f| <= |t| && At(t, i + |f| + |after|) == rest[0]
  {
    hide HasAt;
    HasAtSplit(t, i, f, after + rest);
    HasAtSplit(t, i + |f|, after, rest);
    HasAtByte(t, i + |f| + |after|, rest, 0);
    TextInside(t, i, f);
  }

  lemma Regroup(a: seq<byte>, b: seq<byte>, c: seq<byte>, d: seq<byte>)
    ensures a + b + c + d == a + (b + (c + d))
  {
  }

  lemma EndsFrom(t: seq<byte>, v: Value, i: nat, e: nat, p: nat)
    requires Skip(t, 0) == i <= |t| && e <= |t| && ParseValue(t, i) == Ok(v, e) && Skip(t, e) == p && At(t, p) != 0
    ensures Parse(t, false) == Ok(v, e) && Parse(t, true) == Fail(p)
  {
    hide Skip, ParseValue;
  }
}
