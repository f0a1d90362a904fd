/**
 JSON values and their texts, as cJSON reads and writes them.  A text is a C string: reading past its
 end gives zero.  Numbers are real numbers; only those that are ints are ever printed here.
 */
module JsonText {
  import opened Bytes
  import opened Utf16

  const QUOTE: byte := 34
  const PLUS: byte := 43
  const COMMA: byte := 44
  const MINUS: byte := 45
  const DOT: byte := 46
  const ZERO: byte := 48
  const NINE: byte := 57
  const COLON: byte := 58
  const LBRACKET: byte := 91
  const BACKSLASH: byte := 92
  const RBRACKET: byte := 93
  const LBRACE: byte := 123
  const RBRACE: byte := 125
  const TAB: byte := 9
  const NEWLINE: byte := 10
  const SPACE: byte := 32
  const LETTER_U: byte := 117

  const NULL_TEXT: seq<byte> := [110, 117, 108, 108]
  const FALSE_TEXT: seq<byte> := [102, 97, 108, 115, 101]
  const TRUE_TEXT: seq<byte> := [116, 114, 117, 101]

  /** The children of an array or object are a list of nodes; in an object each has a name. */
  datatype Value =
    | Null
    | False
    | True
    | Number(d: real)
    | Str(s: seq<byte>)
    | Arr(items: Items)
    | Obj(members: Members)

  datatype Items = NoItems | Item(value: Value, rest: Items)

  datatype Members = NoMembers | Member(name: seq<byte>, value: Value, others: Members)

  // ---------- What can be printed ----------

  const INT_MAX := 0x7fff_ffff
  const INT_MIN := -0x8000_0000

  /** A C string: no byte is zero. */
  predicate NulFree(s: seq<byte>) {
    forall k :: 0 <= k < |s| ==> s[k] != 0
  }

  predicate IsInt(d: real) {
    d == d.Floor as real && INT_MIN <= d.Floor <= INT_MAX
  }

  predicate ValueOk(v: Value) {
    match v
    case Number(d) => IsInt(d)
    case Str(s) => NulFree(s)
    case Arr(items) => ItemsOk(items)
    case Obj(members) => MembersOk(members)
    case _ => true
  }

  predicate ItemsOk(items: Items) {
    items.Item? ==> ValueOk(items.value) && ItemsOk(items.rest)
  }

  predicate MembersOk(members: Members) {
    members.Member? ==> NulFree(members.name) && ValueOk(members.value) && MembersOk(members.others)
  }

  // ---------- Printing ----------

  function Digits(n: nat): (r: seq<byte>)
    ensures |r| >= 1
  {
    if n < 10 then [ZERO + n] else Digits(n / 10) + [ZERO + n % 10]
  }

  /** The decimal text of an int. */
  function PrintInt(n: int): seq<byte> {
    if n < 0 then [MINUS] + Digits(-n) else Digits(n)
  }

  function HexDigit(n: nat): byte
    requires n < 16
  {
    if n < 10 then ZERO + n else 87 + n
  }

  /** How one byte of a string is printed (cJSON.c:229-243). */
  function EscapeByte(c: byte): seq<byte> {
    if c > 31 && c != QUOTE && c != BACKSLASH then [c]
    else if c == BACKSLASH || c == QUOTE then [BACKSLASH, c]
    else if c == 8 then [BACKSLASH, 98]
    else if c == 12 then [BACKSLASH, 102]
    else if c == 10 then [BACKSLASH, 110]
    else if c == 13 then [BACKSLASH, 114]
    else if c == 9 then [BACKSLASH, 116]
    else [BACKSLASH, LETTER_U, ZERO, ZERO, HexDigit(c / 16), HexDigit(c % 16)]
  }

  function Escape(s: seq<byte>): seq<byte> {
    if s == [] then [] else EscapeByte(s[0]) + Escape(s[1..])
  }

  function PrintString(s: seq<byte>): seq<byte> {
    [QUOTE] + Escape(s) + [QUOTE]
  }

  function Tabs(n: int): seq<byte> {
    seq(if n < 0 then 0 else n, _ => TAB)
  }

  /** The bytes that only the formatted form has. */
  function If(fmt: bool, s: seq<byte>): seq<byte> {
    if fmt then s else []
  }

  function PrintValue(v: Value, depth: nat, fmt: bool): seq<byte>
    requires ValueOk(v)
  {
    match v
    case Null => NULL_TEXT
    case False => FALSE_TEXT
    case True => TRUE_TEXT
    case Number(d) => PrintInt(d.Floor)
    case Str(s) => PrintString(s)
    case Arr(items) => [LBRACKET] + PrintItems(items, depth + 1, fmt) + [RBRACKET]
    case Obj(members) =>
      if members.NoMembers? then [LBRACE] + If(fmt, [NEWLINE] + Tabs(depth - 1)) + [RBRACE]
      else [LBRACE] + If(fmt, [NEWLINE]) + PrintMembers(members, depth + 1, fmt) + If(fmt, Tabs(depth)) + [RBRACE]
  }

  function PrintItems(items: Items, depth: nat, fmt: bool): seq<byte>
    requires ItemsOk(items)
  {
    match items
    case NoItems => []
    case Item(v, rest) =>
      PrintValue(v, depth, fmt) + (if rest.NoItems? then [] else [COMMA] + If(fmt, [SPACE]))
      + PrintItems(rest, depth, fmt)
  }

  function PrintMembers(members: Members, depth: nat, fmt: bool): seq<byte>
    requires MembersOk(members)
  {
    match members
    case NoMembers => []
    case Member(name, v, others) =>
      If(fmt, Tabs(depth)) + PrintString(name) + [COLON] + If(fmt, [TAB]) + PrintValue(v, depth, fmt)
      + (if others.NoMembers? then [] else [COMMA]) + If(fmt, [NEWLINE])
      + PrintMembers(others, depth, fmt)
  }

  // ---------- Strings ----------

  /** A byte of a string, or a UTF-16 code unit given by an escape. */
  datatype Piece = Byte(b: byte) | Unit(u: nat)

  predicate IsHex(c: byte) {
    ZERO <= c <= NINE || 65 <= c <= 70 || 97 <= c <= 102
  }

  function HexValue(c: byte): (r: nat)
    requires IsHex(c)
    ensures r < 16
  {
    if c <= NINE then c - ZERO else if c <= 70 then c - 55 else c - 87
  }

  /** Four hexadecimal digits stand at p. */
  predicate Hex4At(t: seq<byte>, p: nat) {
    p + 4 <= |t| && IsHex(t[p]) && IsHex(t[p + 1]) && IsHex(t[p + 2]) && IsHex(t[p + 3])
  }

  function Hex4(t: seq<byte>, p: nat): (r: nat)
    requires Hex4At(t, p)
    ensures r < 0x10000
  {
    4096 * HexValue(t[p]) + 256 * HexValue(t[p + 1]) + 16 * HexValue(t[p + 2]) + HexValue(t[p + 3])
  }

  /** parse_hex4: a code unit, or zero if there are not four digits. */
  function UnitValue(t: seq<byte>, p: nat): (r: nat)
    ensures r < 0x10000
  {
    if Hex4At(t, p) then Hex4(t, p) else 0
  }

  function Unescaped(c: byte): byte {
    if c == 98 then 8 else if c == 102 then 12 else if c == 110 then 10 else if c == 114 then 13
    else if c == 116 then 9 else c
  }

  /**
   What the parser makes of the text at some place: a value and where its text ends, or the place of an error; Ragged if
   it would read behind the end of the text or write behind the end of a buffer.
   */
  datatype Result<T> = Ok(value: T, end: nat) | Fail(at: nat) | Ragged

  /** The text goes on for n bytes from p. */
  predicate GoesOn(t: seq<byte>, p: nat, n: nat) {
    forall k :: p <= k < p + n ==> At(t, k) != 0
  }

  /** The pieces of a string from p up to a quote or to the end of the text, as the second pass of the parser finds them. */
  function Pieces(t: seq<byte>, p: nat): (r: Result<seq<Piece>>)
    requires p <= |t|
    ensures r.Ok? ==> p <= r.end <= |t| && (At(t, r.end) == QUOTE || At(t, r.end) == 0)
    ensures !r.Fail?
    decreases |t| - p
  {
    var c := At(t, p);
    if c == QUOTE || c == 0 then Ok([], p)
    else if c != BACKSLASH then Before(Byte(c), Pieces(t, p + 1))
    else if At(t, p + 1) == 0 then Ragged
    else if At(t, p + 1) != LETTER_U then Before(Byte(Unescaped(At(t, p + 1))), Pieces(t, p + 2))
    else if !GoesOn(t, p + 2, 4) then Ragged
    else assert At(t, p + 5) != 0; Before(Unit(UnitValue(t, p + 2)), Pieces(t, p + 6))
  }

  /**
   Where a string is taken to end if a backslash is only known to escape the byte behind it, as in the first pass of the
   parser and in Minify: at a quote, at the end of the text, or, if that is escaped, behind it.
   */
  function StringStop(t: seq<byte>, p: nat): (r: nat)
    ensures p <= r
    decreases if p < |t| then |t| - p else 0
  {
    if At(t, p) == 0 || At(t, p) == QUOTE then p
    else if At(t, p) == BACKSLASH then if At(t, p + 1) == 0 then |t| + 1 else StringStop(t, p + 2)
    else StringStop(t, p + 1)
  }

  /** What the first pass of the parser counts up to there. */
  function Count(t: seq<byte>, p: nat): nat
    decreases if p < |t| then |t| - p else 0
  {
    if At(t, p) == QUOTE || At(t, p) == 0 then 0
    else if At(t, p) == BACKSLASH then 1 + Count(t, p + 2)
    else 1 + Count(t, p + 1)
  }

  function Before(x: Piece, r: Result<seq<Piece>>): Result<seq<Piece>> {
    match r
    case Ok(xs, end) => Ok([x] + xs, end)
    case _ => r
  }

  /** The UTF-8 form of a code point (section 3 of RFC 3629). */
  function Utf8(c: nat): (r: seq<byte>)
    requires c < 0x110000
  {
    if c < 0x80 then [c]
    else if c < 0x800 then [0xC0 + c / 64, 0x80 + c % 64]
    else if c < 0x10000 then [0xE0 + c / 4096, 0x80 + c / 64 % 64, 0x80 + c % 64]
    else [0xF0 + c / 262144, 0x80 + c / 4096 % 64, 0x80 + c / 64 % 64, 0x80 + c % 64]
  }

  /** What the code units mean: pairs are joined; zero and surrogates outside a pair give nothing. */
  function Meaning(ps: seq<Piece>): seq<byte> {
    if ps == [] then []
    else if ps[0].Byte? then [ps[0].b] + Meaning(ps[1..])
    else if IsHigh(ps[0].u) && |ps| > 1 && ps[1].Unit? && IsLow(ps[1].u) then
      Utf8(Join(ps[0].u, ps[1].u)) + Meaning(ps[2..])
    else Alone(ps[0].u) + Meaning(ps[1..])
  }

  /** A code unit that is not part of a pair. */
  function Alone(u: nat): seq<byte> {
    if u == 0 || IsHigh(u) || IsLow(u) || u >= 0x10000 then [] else Utf8(u)
  }

  /** What the parser makes of them: a code unit after a high surrogate is used up in any case. */
  function Transcode(ps: seq<Piece>): seq<byte> {
    if ps == [] then []
    else if ps[0].Byte? then [ps[0].b] + Transcode(ps[1..])
    else if IsHigh(ps[0].u) && |ps| > 1 && ps[1].Unit? then
      (if IsLow(ps[1].u) then Utf8(Join(ps[0].u, ps[1].u)) else []) + Transcode(ps[2..])
    else Alone(ps[0].u) + Transcode(ps[1..])
  }

  /** Both passes stay inside the text, and the second writes no more than the first has counted. */
  predicate Contained(t: seq<byte>, p: nat) {
    && p <= |t| && Pieces(t, p).Ok? && StringStop(t, p) <= |t|
    && |Transcode(Pieces(t, p).value)| <= Count(t, p)
  }

  function ParseString(t: seq<byte>, i: nat): (r: Result<seq<byte>>)
    requires i <= |t|
    ensures r.Ok? ==> i < r.end <= |t|
  {
    if At(t, i) != QUOTE then Fail(i)
    else if !Contained(t, i + 1) then Ragged
    else
      var r := Pieces(t, i + 1);
      Ok(Transcode(r.value), if At(t, r.end) == QUOTE then r.end + 1 else r.end)
  }

  // ---------- Numbers ----------

  predicate IsDigit(c: byte) { ZERO <= c <= NINE }

  function DigitOf(c: byte): nat
    requires IsDigit(c)
  {
    c - ZERO
  }

  /** The first place at or after i without a digit. */
  function DigitsEnd(t: seq<byte>, i: nat): (r: nat)
    requires i <= |t|
    ensures i <= r <= |t| && !IsDigit(At(t, r))
    ensures forall k :: i <= k < r ==> IsDigit(t[k])
    decreases |t| - i
  {
    if IsDigit(At(t, i)) then DigitsEnd(t, i + 1) else i
  }

  /** The value of the digits between i and j. */
  function DigitsValue(t: seq<byte>, i: nat, j: nat): nat
    requires i <= j <= |t| && forall k :: i <= k < j ==> IsDigit(t[k])
  {
    if i == j then 0 else 10 * DigitsValue(t, i, j - 1) + DigitOf(t[j - 1])
  }

  function Pow10(e: int): (r: real)
    ensures r > 0.0
    decreases if e < 0 then -e else e
  {
    if e == 0 then 1.0 else if e > 0 then 10.0 * Pow10(e - 1) else Pow10(e + 1) / 10.0
  }

  /** Where the parts of a number end: a sign, one zero, digits, a fraction, an exponent. */
  function SignEnd(t: seq<byte>, i: nat): nat {
    if At(t, i) == MINUS then i + 1 else i
  }

  function IntStart(t: seq<byte>, i: nat): nat {
    if At(t, SignEnd(t, i)) == ZERO then SignEnd(t, i) + 1 else SignEnd(t, i)
  }

  function IntEnd(t: seq<byte>, i: nat): (r: nat)
    requires i <= |t|
    ensures IntStart(t, i) <= r <= |t|
    ensures forall k :: IntStart(t, i) <= k < r ==> IsDigit(t[k])
  {
    var b := IntStart(t, i);
    if IsDigit(At(t, b)) && At(t, b) != ZERO then DigitsEnd(t, b) else b
  }

  predicate HasFraction(t: seq<byte>, c: nat) {
    At(t, c) == DOT && IsDigit(At(t, c + 1))
  }

  predicate HasExponent(t: seq<byte>, c: nat) {
    At(t, c) == 69 || At(t, c) == 101
  }

  function FractionEnd(t: seq<byte>, c: nat): (r: nat)
    requires c <= |t|
    ensures c <= r <= |t|
  {
    if HasFraction(t, c) then DigitsEnd(t, c + 1) else c
  }

  function ExponentStart(t: seq<byte>, d: nat): (r: nat)
    requires HasExponent(t, d)
    ensures d < r <= |t|
  {
    if At(t, d + 1) == PLUS || At(t, d + 1) == MINUS then d + 2 else d + 1
  }

  function ExponentEnd(t: seq<byte>, d: nat): (r: nat)
    requires d <= |t|
    ensures d <= r <= |t|
  {
    if HasExponent(t, d) then DigitsEnd(t, ExponentStart(t, d)) else d
  }

  function NumberEnd(t: seq<byte>, i: nat): (r: nat)
    requires i <= |t|
    ensures i <= r <= |t|
  {
    ExponentEnd(t, FractionEnd(t, IntEnd(t, i)))
  }

  /** The value of the fraction digits. */
  function FractionValue(t: seq<byte>, c: nat): real
    requires c <= |t|
  {
    if HasFraction(t, c) then
      DigitsValue(t, c + 1, FractionEnd(t, c)) as real * Pow10(c + 1 - FractionEnd(t, c))
    else 0.0
  }

  function ExponentValue(t: seq<byte>, d: nat): int
    requires d <= |t|
  {
    if !HasExponent(t, d) then 0 else
    var n := DigitsValue(t, ExponentStart(t, d), ExponentEnd(t, d));
    if At(t, d + 1) == MINUS then 0 - n else n
  }

  /** (integer part + fraction) * 10 ^ exponent, with the sign. */
  function NumberValue(t: seq<byte>, i: nat): real
    requires i <= |t|
  {
    var c := IntEnd(t, i);
    var d := FractionEnd(t, c);
    var n := (DigitsValue(t, IntStart(t, i), c) as real + FractionValue(t, c)) * Pow10(ExponentValue(t, d));
    if At(t, i) == MINUS then -n else n
  }

  // ---------- Values ----------

  /** Past blanks and control characters. */
  function Skip(t: seq<byte>, i: nat): (r: nat)
    requires i <= |t|
    ensures i <= r <= |t|
    decreases |t| - i
  {
    if 0 < At(t, i) <= SPACE then Skip(t, i + 1) else i
  }

  function ParseValue(t: seq<byte>, i: nat): (r: Result<Value>)
    requires i <= |t|
    ensures r.Ok? ==> i < r.end <= |t|
    decreases |t| - i, 0
  {
    if HasAt(t, i, NULL_TEXT) then Ok(Null, i + 4)
    else if HasAt(t, i, FALSE_TEXT) then Ok(False, i + 5)
    else if HasAt(t, i, TRUE_TEXT) then Ok(True, i + 4)
    else if At(t, i) == QUOTE then
      match ParseString(t, i)
      case Ok(s, end) => Ok(Str(s), end)
      case Fail(at) => Fail(at)
      case Ragged => Ragged
    else if At(t, i) == MINUS || IsDigit(At(t, i)) then
      Ok(Number(NumberValue(t, i)), NumberEnd(t, i))
    else if At(t, i) == LBRACKET then
      var p := Skip(t, i + 1);
      if At(t, p) == RBRACKET then Ok(Arr(NoItems), p + 1) else
      match ParseItems(t, p)
      case Ok(items, end) => Ok(Arr(items), end)
      case Fail(at) => Fail(at)
      case Ragged => Ragged
    else if At(t, i) == LBRACE then
      var p := Skip(t, i + 1);
      if At(t, p) == RBRACE then Ok(Obj(NoMembers), p + 1) else
      match ParseMembers(t, p)
      case Ok(members, end) => Ok(Obj(members), end)
      case Fail(at) => Fail(at)
      case Ragged => Ragged
    else Fail(i)
  }

  /** Values separated by commas, up to the closing bracket. */
  function ParseItems(t: seq<byte>, i: nat): (r: Result<Items>)
    requires i <= |t|
    ensures r.Ok? ==> i < r.end <= |t|
    decreases |t| - i, 1
  {
    match ParseValue(t, i)
    case Fail(at) => Fail(at)
    case Ragged => Ragged
    case Ok(v, end) =>
      var p := Skip(t, end);
      if At(t, p) == RBRACKET then Ok(Item(v, NoItems), p + 1)
      else if At(t, p) != COMMA then Fail(p) else
      match ParseItems(t, Skip(t, p + 1))
      case Ok(rest, e) => Ok(Item(v, rest), e)
      case Fail(at) => Fail(at)
      case Ragged => Ragged
  }

  /** Names and values with colons between them, separated by commas, up to the closing brace. */
  function ParseMembers(t: seq<byte>, i: nat): (r: Result<Members>)
    requires i <= |t|
    ensures r.Ok? ==> i < r.end <= |t|
    decreases |t| - i, 1
  {
    match ParseString(t, i)
    case Fail(at) => Fail(at)
    case Ragged => Ragged
    case Ok(name, end0) =>
      var c := Skip(t, end0);
      if At(t, c) != COLON then Fail(c) else
      match ParseValue(t, Skip(t, c + 1))
      case Fail(at) => Fail(at)
      case Ragged => Ragged
      case Ok(v, end) =>
        var p := Skip(t, end);
        if At(t, p) == RBRACE then Ok(Member(name, v, NoMembers), p + 1)
        else if At(t, p) != COMMA then Fail(p) else
        match ParseMembers(t, Skip(t, p + 1))
        case Ok(others, e) => Ok(Member(name, v, others), e)
        case Fail(at) => Fail(at)
        case Ragged => Ragged
  }

  /** cJSON_ParseWithOpts: blanks, a value and, if it is required, nothing but blanks up to the end. */
  function Parse(t: seq<byte>, whole: bool): Result<Value> {
    match ParseValue(t, Skip(t, 0))
    case Ok(v, end) => if whole && At(t, Skip(t, end)) != 0 then Fail(Skip(t, end)) else Ok(v, if whole then Skip(t, end) else end)
    case r => r
  }
}
