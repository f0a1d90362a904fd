/**
 The layout of what is printed: the printed text of a value is a text of the grammar, written out here with its blanks
 and escapes.
 */
module JsonLayout {
  import opened Bytes
  import opened JsonText
  import opened JsonRoundTrip
  import opened JsonGrammar

  const HEX := [48, 49, 50, 51, 52, 53, 54, 55, 56, 57, 97, 98, 99, 100, 101, 102]

  /** How a byte is written in a string: a quote, a backslash and the control characters are escaped. */
  function CharFor(c: byte): (r: Char)
    requires c != 0
    ensures CharOk(r)
  {
    if c == 34 then Short(34)
    else if c == 92 then Short(92)
    else if c == 8 then Short(98)
    else if c == 12 then Short(102)
    else if c == 10 then Short(110)
    else if c == 13 then Short(114)
    else if c == 9 then Short(116)
    else if c < 32 then Code([48, 48, HEX[c / 16], HEX[c % 16]])
    else Plain(c)
  }

  function CharsFor(s: seq<byte>): (r: seq<Char>)
    requires NulFree(s)
    ensures CharsOk(r)
  {
    if s == [] then [] else [CharFor(s[0])] + CharsFor(s[1..])
  }

  function TabsFor(n: nat): (r: seq<byte>)
    ensures Blanks(r)
  {
    seq(n, _ => 9)
  }

  /**
   How a value is laid out.  Compact, there are no blanks; otherwise there is one behind each comma of an array, a tab
   behind each colon, and each member has a line of its own, with as many tabs as it lies deep.
   */
  function Laid(v: Value, depth: nat, fmt: bool): (r: Doc)
    requires ValueOk(v)
    ensures DocOk(r)
  {
    match v
    case Null => DNull
    case False => DFalse
    case True => DTrue
    case Number(d) => DNumber(IntNum(d.Floor))
    case Str(s) => DString(CharsFor(s))
    case Arr(items) => DArray([], LaidItems(items, depth + 1, fmt))
    case Obj(members) =>
      if members.NoMembers? then DObject(if fmt then [10] + TabsFor(if depth > 0 then depth - 1 else 0) else [], NoFields)
      else DObject(if fmt then [10] + TabsFor(depth + 1) else [], LaidMembers(members, depth + 1, fmt))
  }

  function LaidItems(items: Items, depth: nat, fmt: bool): (r: Elems)
    requires ItemsOk(items)
    ensures ElemsOk(r) && (r.NoElems? <==> items.NoItems?)
  {
    if items.NoItems? then NoElems
    else Elem(Laid(items.value, depth, fmt), [], if fmt then [32] else [], LaidItems(items.rest, depth, fmt))
  }

  function LaidMembers(ms: Members, depth: nat, fmt: bool): (r: Fields)
    requires MembersOk(ms) && depth > 0
    ensures FieldsOk(r) && (r.NoFields? <==> ms.NoMembers?)
  {
    if ms.NoMembers? then NoFields
    else Field(CharsFor(ms.name), [], if fmt then [9] else [], Laid(ms.value, depth, fmt),
               if fmt && ms.others.NoMembers? then [10] + TabsFor(depth - 1) else [],
               if fmt then [10] + TabsFor(depth) else [], LaidMembers(ms.others, depth, fmt))
  }

  /** An int in decimal. */
  function IntNum(n: int): (r: Num)
    ensures NumOk(r)
  {
    DecimalDigits(if n < 0 then -n else n);
    Num(n < 0, Digits(if n < 0 then -n else n), [], NoExp)
  }

  /** The digits of a number have its value, and no zero in front. */
  lemma {:induction false} DecimalDigits(n: nat)
    ensures AllDigits(Digits(n)) && Decimal(Digits(n)) == n
    ensures |Digits(n)| > 1 ==> Digits(n)[0] != 48
    ensures n > 0 ==> Digits(n)[0] != 48
    decreases n
  {
    if n >= 10 {
      DecimalDigits(n / 10);
      var init := Digits(n / 10);
      assert Digits(n)[..|Digits(n)| - 1] == init;
    }
  }

  lemma CharIsEscaped(c: byte)
    requires c != 0
    ensures EscapeByte(c) == CharText(CharFor(c))
  {
    if c < 32 {
      NibbleIsHex(c / 16);
      NibbleIsHex(c % 16);
    }
  }

  lemma NibbleIsHex(n: nat)
    requires n < 16
    ensures HexDigit(n) == HEX[n]
  {
  }

  lemma {:induction false} CharsAreEscaped(s: seq<byte>)
    requires NulFree(s)
    ensures Escape(s) == CharsText(CharsFor(s))
    decreases |s|
  {
    hide EscapeByte, CharText, CharFor;
    if s != [] {
      CharIsEscaped(s[0]);
      CharsAreEscaped(s[1..]);
      var cs := CharsFor(s);
      assert cs[0] == CharFor(s[0]) && cs[1..] == CharsFor(s[1..]);
    }
  }

  lemma TabsAre(n: nat)
    ensures Tabs(n) == TabsFor(n) && (n == 0 ==> Tabs(n - 1) == TabsFor(0))
  {
  }

  /** The printed text of a value is its layout. */
  lemma {:induction false} PrintedIsLaid(v: Value, depth: nat, fmt: bool)
    requires ValueOk(v)
    ensures PrintValue(v, depth, fmt) == DocText(Laid(v, depth, fmt))
    decreases v
  {
    hide Escape, CharsText, Tabs, TabsFor, ElemsText, FieldsText, PrintItems, PrintMembers, Digits;
    match v
    case Str(s) => CharsAreEscaped(s);
    case Number(d) =>
      var n := if d.Floor < 0 then -d.Floor else d.Floor;
      assert Digits(n) + [] + [] == Digits(n) && [] + Digits(n) == Digits(n);
    case Arr(items) => ArrayIsLaid(items, depth, fmt);
    case Obj(members) => ObjectIsLaid(members, depth, fmt);
    case _ =>
  }

  lemma {:induction false} ArrayIsLaid(items: Items, depth: nat, fmt: bool)
    requires ItemsOk(items)
    ensures PrintValue(Arr(items), depth, fmt) == DocText(Laid(Arr(items), depth, fmt))
    decreases items, 1
  {
    hide ElemsText, PrintItems;
    if items.NoItems? {
      NothingInside(depth + 1, fmt);
    } else {
      ItemsAreLaid(items, depth + 1, fmt);
      var f := ElemsText(LaidItems(items, depth + 1, fmt));
      assert [91] + PrintItems(items, depth + 1, fmt) + [93] == [91] + (PrintItems(items, depth + 1, fmt) + [93]);
      assert [91] + ([] + f) == [91] + f;
    }
  }

  lemma {:induction false} ItemsAreLaid(items: Items, depth: nat, fmt: bool)
    requires ItemsOk(items) && items.Item?
    ensures PrintItems(items, depth, fmt) + [93] == ElemsText(LaidItems(items, depth, fmt))
    decreases items, 0
  {
    hide PrintValue, DocText, Laid;
    var p := PrintValue(items.value, depth, fmt);
    PrintedIsLaid(items.value, depth, fmt);
    if items.rest.NoItems? {
      NothingInside(depth, fmt);
      assert PrintItems(items, depth, fmt) == p + [] + [] == p;
      assert p + ([] + [93]) == p + [93];
    } else {
      var gap, rest := If(fmt, [32]), PrintItems(items.rest, depth, fmt);
      ItemsAreLaid(items.rest, depth, fmt);
      assert PrintItems(items, depth, fmt) == p + ([44] + gap) + rest;
      assert p + ([44] + gap) + rest + [93] == p + ([] + ([44] + (gap + (rest + [93]))));
    }
  }

  lemma {:induction false} ObjectIsLaid(members: Members, depth: nat, fmt: bool)
    requires MembersOk(members)
    ensures PrintValue(Obj(members), depth, fmt) == DocText(Laid(Obj(members), depth, fmt))
    decreases members, 1
  {
    hide PrintValue, DocText, Laid, PrintMembers, FieldsText, LaidMembers;
    TabsAre(depth);
    if members.NoMembers? {
      EmptyIsLaid(depth, fmt);
    } else {
      MembersAreLaid(members, depth + 1, fmt);
      TabsAre(depth + 1);
      MembersInBraces(members, depth, fmt);
    }
  }

  lemma EmptyIsLaid(depth: nat, fmt: bool)
    ensures PrintValue(Obj(NoMembers), depth, fmt) == DocText(Laid(Obj(NoMembers), depth, fmt))
  {
    hide Tabs, TabsFor;
    TabsAre(depth);
    if depth > 0 {
      TabsAre(depth - 1);
    }
    var pad := If(fmt, [10] + Tabs(depth - 1));
    assert [123] + pad + [125] == [123] + (pad + [125]);
  }

  /** The braces around the members. */
  lemma MembersInBraces(ms: Members, depth: nat, fmt: bool)
    requires MembersOk(ms) && ms.Member? && Tabs(depth + 1) == TabsFor(depth + 1)
    requires PrintMembers(ms, depth + 1, fmt) + If(fmt, Tabs(depth)) + [125] ==
             If(fmt, Tabs(depth + 1)) + FieldsText(LaidMembers(ms, depth + 1, fmt))
    ensures PrintValue(Obj(ms), depth, fmt) == DocText(Laid(Obj(ms), depth, fmt))
  {
    hide FieldsText, PrintMembers, Tabs, TabsFor, LaidMembers;
    var nl, tabs, body, close := If(fmt, [10]), If(fmt, Tabs(depth + 1)), PrintMembers(ms, depth + 1, fmt),
      If(fmt, Tabs(depth));
    var fs := FieldsText(LaidMembers(ms, depth + 1, fmt));
    Regroup4([123], nl, body, close, [125], tabs, fs);
    assert nl + tabs == if fmt then [10] + TabsFor(depth + 1) else [];
  }

  lemma Regroup4(a: seq<byte>, b: seq<byte>, c: seq<byte>, d: seq<byte>, e: seq<byte>, f: seq<byte>, g: seq<byte>)
    requires c + d + e == f + g
    ensures a + b + c + d + e == a + ((b + f) + g)
  {
    assert a + b + c + d + e == a + b + (c + d + e);
    assert a + b + (f + g) == a + ((b + f) + g);
  }

  lemma LastRegroup(tabs: seq<byte>, name: seq<byte>, colon: seq<byte>, gap: seq<byte>, p: seq<byte>, nl: seq<byte>,
                    close: seq<byte>, end: seq<byte>)
    ensures tabs + name + colon + gap + p + [] + nl + [] + close + end ==
            tabs + (name + ([] + (colon + (gap + (p + ((nl + close) + end))))))
  {
    var front := tabs + name + colon + gap + p;
    assert front + [] + nl + [] + close + end == front + ((nl + close) + end);
    Regroup(tabs, name, colon, gap, p);
    assert front + ((nl + close) + end) == tabs + (name + (colon + (gap + (p + ((nl + close) + end)))));
  }

  lemma MoreRegroup(tabs: seq<byte>, name: seq<byte>, colon: seq<byte>, gap: seq<byte>, p: seq<byte>, comma: seq<byte>,
                    nl: seq<byte>, rest: seq<byte>, close: seq<byte>, end: seq<byte>, fs: seq<byte>)
    requires rest + close + end == tabs + fs
    ensures tabs + name + colon + gap + p + comma + nl + rest + close + end ==
            tabs + (name + ([] + (colon + (gap + (p + ([] + (comma + ((nl + tabs) + fs))))))))
  {
    var front := tabs + name + colon + gap + p;
    assert front + comma + nl + rest + close + end == front + (comma + (nl + (rest + close + end)));
    assert nl + (tabs + fs) == (nl + tabs) + fs;
    assert front + (comma + ((nl + tabs) + fs)) == tabs + (name + (colon + (gap + (p + (comma + ((nl + tabs) + fs))))));
    assert [] + (comma + ((nl + tabs) + fs)) == comma + ((nl + tabs) + fs);
  }

  /** The members with the tabs before the closing brace; the tabs before the first one belong to the brace that opens. */
  lemma {:induction false} MembersAreLaid(ms: Members, depth: nat, fmt: bool)
    requires MembersOk(ms) && ms.Member? && depth > 0
    ensures PrintMembers(ms, depth, fmt) + If(fmt, Tabs(depth - 1)) + [125] ==
            If(fmt, Tabs(depth)) + FieldsText(LaidMembers(ms, depth, fmt))
    decreases ms, 0
  {
    hide PrintMembers, FieldsText, LaidMembers;
    TabsAre(depth);
    TabsAre(depth - 1);
    PrintedIsLaid(ms.value, depth, fmt);
    NameIsLaid(ms.name);
    if ms.others.Member? {
      MembersAreLaid(ms.others, depth, fmt);
    }
    MemberIsLaid(ms, depth, fmt);
  }

  /** One member, from how its parts are laid out. */
  lemma MemberIsLaid(ms: Members, depth: nat, fmt: bool)
    requires MembersOk(ms) && ms.Member? && depth > 0
    requires Tabs(depth) == TabsFor(depth) && Tabs(depth - 1) == TabsFor(depth - 1)
    requires PrintString(ms.name) == NameText(CharsFor(ms.name))
    requires PrintValue(ms.value, depth, fmt) == DocText(Laid(ms.value, depth, fmt))
    requires ms.others.Member? ==>
               PrintMembers(ms.others, depth, fmt) + If(fmt, Tabs(depth - 1)) + [125] ==
               If(fmt, Tabs(depth)) + FieldsText(LaidMembers(ms.others, depth, fmt))
    ensures PrintMembers(ms, depth, fmt) + If(fmt, Tabs(depth - 1)) + [125] ==
            If(fmt, Tabs(depth)) + FieldsText(LaidMembers(ms, depth, fmt))
  {
    hide PrintValue, DocText, Laid, PrintString, Tabs, TabsFor, CharsFor, NameText;
    var name, p := PrintString(ms.name), PrintValue(ms.value, depth, fmt);
    var tabs, close, nl, gap := If(fmt, Tabs(depth)), If(fmt, Tabs(depth - 1)), If(fmt, [10]), If(fmt, [9]);
    if ms.others.NoMembers? {
      NothingInside(depth, fmt);
      LastRegroup(tabs, name, [58], gap, p, nl, close, [125]);
      assert nl + close == if fmt then [10] + TabsFor(depth - 1) else [];
    } else {
      var rest, fs := PrintMembers(ms.others, depth, fmt), FieldsText(LaidMembers(ms.others, depth, fmt));
      MoreRegroup(tabs, name, [58], gap, p, [44], nl, rest, close, [125], fs);
      assert nl + tabs == if fmt then [10] + TabsFor(depth) else [];
    }
  }

  lemma NameIsLaid(s: seq<byte>)
    requires NulFree(s)
    ensures PrintString(s) == NameText(CharsFor(s))
  {
    hide Escape, CharsText;
    CharsAreEscaped(s);
  }
}
