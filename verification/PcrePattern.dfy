/**
 Patterns as trees, the code they are compiled to, and what a run of that code is to match: `MatchAlts` is defined by
 recursion on the tree, with the options of the run only where a group is called.
 */
module PcrePattern {
  import opened Bytes
  import opened PcreCode

  datatype Mode = Greedy | Lazy | Possessive

  datatype Quant =
    | Star(mode: Mode)
    | Plus(mode: Mode)
    | Query(mode: Mode)
    | Upto(n: nat, mode: Mode)
    | Exact(n: nat)
    | Range(min: nat, max: nat, lazy: bool)

  datatype Zero = NoZero | BraZero | BraMinZero | SkipZero

  datatype Item =
    | Single(test: CharTest)
    | Repeat(test: CharTest, quant: Quant)
    | Group(open: byte, number: nat, alts: Alts, close: byte, zero: Zero)
    | Recurse(group: nat)

  datatype Branch = Empty | Then(head: Item, tail: Branch)

  datatype Alts = Last(branch: Branch) | Or(branch: Branch, rest: Alts)

  // ---------- Code sizes ----------

  function QuantWidth(t: CharTest, q: Quant): nat {
    if t.Class? then 33 + (if q.Range? then 5 else 1)
    else if q.Upto? || q.Exact? then 4 else 2
  }

  function SingleWidth(t: CharTest): nat {
    match t
    case Type(_) => 1
    case Class(_) => 33
    case _ => 2
  }

  function ItemSize(item: Item): nat {
    match item
    case Single(t) => SingleWidth(t)
    case Repeat(t, q) => QuantWidth(t, q)
    case Group(open, _, alts, _, zero) =>
      (if zero == NoZero then 0 else 1) + AltsSize(OpenerLength(open), alts) + 3
    case Recurse(_) => 3
  }

  function BranchSize(b: Branch): nat {
    match b
    case Empty => 0
    case Then(head, tail) => ItemSize(head) + BranchSize(tail)
  }

  /** Size of all branches, the first with a header of hdr bytes, the others with three. */
  function AltsSize(hdr: nat, alts: Alts): nat
    decreases alts
  {
    match alts
    case Last(b) => hdr + BranchSize(b)
    case Or(b, rest) => hdr + BranchSize(b) + AltsSize(3, rest)
  }

  // ---------- Numbered groups ----------

  datatype Found = Missing | Found(off: nat, alts: Alts)

  /** The first capturing group numbered g in an item placed at offset o. */
  function FindInItem(item: Item, o: nat, g: nat): Found {
    match item
    case Group(open, number, alts, _, zero) =>
      var b := o + (if zero == NoZero then 0 else 1);
      if OpenerLength(open) == 5 && number == g then Found(b, alts)
      else FindInAlts(alts, b, OpenerLength(open), g)
    case _ => Missing
  }

  function FindInBranch(br: Branch, o: nat, g: nat): Found {
    match br
    case Empty => Missing
    case Then(head, tail) =>
      var f := FindInItem(head, o, g);
      if f.Found? then f else FindInBranch(tail, o + ItemSize(head), g)
  }

  function FindInAlts(alts: Alts, o: nat, hdr: nat, g: nat): Found
    decreases alts
  {
    var f := FindInBranch(alts.branch, o + hdr, g);
    if f.Found? || alts.Last? then f
    else FindInAlts(alts.rest, o + hdr + BranchSize(alts.branch), 3, g)
  }

  /** What a call of group g runs: 0 is the whole pattern. */
  function Body(pat: Alts, g: nat): Found {
    if g == 0 then Found(0, pat) else FindInAlts(pat, 0, 3, g)
  }

  // ---------- Well-formed patterns ----------

  predicate TestOk(t: CharTest) {
    match t
    case Type(d) => OP_NOT_DIGIT <= d <= OP_ALLANY
    case Class(bits) => |bits| == 32
    case _ => true
  }

  predicate QuantOk(t: CharTest, q: Quant) {
    match q
    case Upto(n, _) => 1 <= n < 0x10000 && !t.Class?
    case Exact(n) => 1 <= n < 0x10000 && !t.Class?
    case Range(min, max, _) => t.Class? && min < 0x10000 && max < 0x10000 && (max == 0 || min <= max)
    case _ => true
  }

  predicate ItemOk(item: Item, pat: Alts) {
    match item
    case Single(t) => TestOk(t) && (t.Literal? && t.caseless ==> t.negated)
    case Repeat(t, q) => TestOk(t) && !t.Folded? && QuantOk(t, q)
    case Group(open, number, alts, close, _) =>
      IsOpener(open) && 0 < number < 0x10000 && OP_KET <= close <= OP_KETRMIN && AltsOk(alts, pat)
    case Recurse(g) => Body(pat, g).Found?
  }

  predicate BranchOk(b: Branch, pat: Alts) {
    match b
    case Empty => true
    case Then(head, tail) => ItemOk(head, pat) && BranchOk(tail, pat)
  }

  predicate AltsOk(alts: Alts, pat: Alts)
    decreases alts
  {
    BranchOk(alts.branch, pat) && (alts.Or? ==> AltsOk(alts.rest, pat))
  }

  /** A pattern the compiler accepts: its code fits MAX_PATTERN_SIZE (pcre_internal.h:436). */
  predicate PatternOk(pat: Alts) {
    AltsOk(pat, pat) && AltsSize(3, pat) + 4 <= 0x10000
  }

  // ---------- Code ----------

  /** PUT and PUT2. */
  function Bytes2(n: nat): seq<byte> {
    [(n / 256) % 256, n % 256]
  }

  function PickMode(mode: Mode, greedy: byte, possessive: byte): byte
    requires greedy < 255
  {
    match mode
    case Greedy => greedy
    case Lazy => greedy + 1
    case Possessive => possessive
  }

  function QuantIndex(q: Quant): byte {
    match q
    case Star(mode) => PickMode(mode, 0, POSSTAR)
    case Plus(mode) => PickMode(mode, PLUS, POSPLUS)
    case Query(mode) => PickMode(mode, QUERY, POSQUERY)
    case Upto(_, mode) => PickMode(mode, UPTO, POSUPTO)
    case Exact(_) => EXACT
    case Range(_, _, _) => 0
  }

  function QuantBytes(q: Quant): seq<byte> {
    if q.Upto? || q.Exact? then Bytes2(q.n) else []
  }

  function ClassQuant(q: Quant): seq<byte> {
    match q
    case Star(mode) => [PickMode(mode, OP_CRSTAR, OP_CRPOSSTAR)]
    case Plus(mode) => [PickMode(mode, OP_CRPLUS, OP_CRPOSPLUS)]
    case Query(mode) => [PickMode(mode, OP_CRQUERY, OP_CRPOSQUERY)]
    case Range(min, max, lazy) => [if lazy then OP_CRMINRANGE else OP_CRRANGE] + Bytes2(min) + Bytes2(max)
    case _ => []
  }

  function SingleCode(t: CharTest): seq<byte> {
    match t
    case Literal(d, caseless, negated) =>
      [if !negated then OP_CHAR else if caseless then OP_NOTI else OP_NOT, d]
    case Folded(d) => [OP_CHARI, d]
    case Type(d) => [d]
    case Class(bits) => [OP_CLASS] + bits
  }

  function RepeatCode(t: CharTest, q: Quant): seq<byte> {
    match t
    case Literal(d, caseless, negated) =>
      var first := if negated then (if caseless then OP_NOTSTAR + REPEATS else OP_NOTSTAR)
                   else if caseless then OP_STARI else OP_STAR;
      [first + QuantIndex(q)] + QuantBytes(q) + [d]
    case Type(d) => [OP_TYPESTAR + QuantIndex(q)] + QuantBytes(q) + [d]
    case Class(bits) => [OP_CLASS] + bits + ClassQuant(q)
    case Folded(d) => []
  }

  function ZeroCode(zero: Zero): seq<byte> {
    match zero
    case NoZero => []
    case BraZero => [OP_BRAZERO]
    case BraMinZero => [OP_BRAMINZERO]
    case SkipZero => [OP_SKIPZERO]
  }

  function ItemCode(item: Item, pat: Alts): (r: seq<byte>)
    requires ItemOk(item, pat)
    ensures |r| == ItemSize(item)
    decreases item
  {
    match item
    case Single(t) => SingleCode(t)
    case Repeat(t, q) => RepeatCode(t, q)
    case Group(open, number, alts, close, zero) =>
      ZeroCode(zero) + BracketCode(open, number, alts, close, pat)
    case Recurse(g) => [OP_RECURSE] + Bytes2(Body(pat, g).off)
  }

  function BracketCode(open: byte, number: nat, alts: Alts, close: byte, pat: Alts): (r: seq<byte>)
    requires AltsOk(alts, pat) && IsOpener(open)
    ensures |r| == AltsSize(OpenerLength(open), alts) + 3
    decreases alts, 1
  {
    AltsCode(open, if OpenerLength(open) == 5 then Bytes2(number) else [], alts, pat)
    + [close] + Bytes2(AltsSize(OpenerLength(open), alts))
  }

  function BranchCode(b: Branch, pat: Alts): (r: seq<byte>)
    requires BranchOk(b, pat)
    ensures |r| == BranchSize(b)
    decreases b
  {
    match b
    case Empty => []
    case Then(head, tail) => ItemCode(head, pat) + BranchCode(tail, pat)
  }

  /** Each branch after an opcode and a link over the branch; the first may hold a group number. */
  function AltsCode(op: byte, imm: seq<byte>, alts: Alts, pat: Alts): (r: seq<byte>)
    requires AltsOk(alts, pat)
    ensures |r| == AltsSize(3 + |imm|, alts)
    decreases alts, 0
  {
    var first := [op] + Bytes2(3 + |imm| + BranchSize(alts.branch)) + imm + BranchCode(alts.branch, pat);
    if alts.Last? then first else first + AltsCode(OP_ALT, [], alts.rest, pat)
  }

  /** The compiled pattern: one non-capturing bracket, then the end of the code. */
  function PatternCode(pat: Alts): (r: seq<byte>)
    requires PatternOk(pat)
  {
    BracketCode(OP_BRA, 0, pat, OP_KET, pat) + [OP_END]
  }

  // ---------- What a pattern matches ----------

  function QuantKind(q: Quant): RepKind {
    match q
    case Star(mode) => RepKind(0, 0, mode.Possessive?, false)
    case Plus(mode) => RepKind(1, 0, mode.Possessive?, true)
    case Query(mode) => RepKind(0, 1, mode.Possessive?, true)
    case Upto(n, mode) => RepKind(0, n, mode.Possessive?, true)
    case Exact(n) => RepKind(n, n, false, true)
    case Range(min, max, _) => RepKind(min, max, false, true)
  }

  /**
   With c characters already taken, subject[i..j] completes a repeat: all pass the test, the number
   is within the bounds, and a possessive repeat takes as many as it can.
   */
  ghost predicate Repeats(md: MatchData, t: CharTest, kind: RepKind, c: nat, i: nat, j: nat) {
    && i <= j <= |md.subject|
    && (forall k :: i <= k < j ==> Sees(md, t, k))
    && kind.min <= c + (j - i)
    && (kind.max == 0 || c + (j - i) <= kind.max)
    && (kind.possessive ==> !Sees(md, t, j) || (kind.max != 0 && c + (j - i) == kind.max))
  }

  /**
   The item matches subject[i..j], with subpattern calls nested at most d deep; a match of a called group counts only if
   the options let it be reported, since the run of the group sees the same options.
   */
  ghost predicate MatchItem(md: MatchData, pat: Alts, item: Item, d: nat, i: nat, j: nat)
    decreases d, item, 0
  {
    match item
    case Single(t) => Sees(md, t, i) && j == i + 1
    case Repeat(t, q) => Repeats(md, t, QuantKind(q), 0, i, j)
    case Group(_, _, alts, close, zero) =>
      || (zero != NoZero && i == j)
      || (zero != SkipZero &&
          if close == OP_KET then MatchAlts(md, pat, alts, d, i, j)
          else exists n: nat :: MatchTimes(md, pat, alts, d, i, j, n))
    case Recurse(g) =>
      d > 0 && Recordable(md, i, j) && Body(pat, g).Found? && MatchAlts(md, pat, Body(pat, g).alts, d - 1, i, j)
  }

  ghost predicate MatchBranch(md: MatchData, pat: Alts, b: Branch, d: nat, i: nat, j: nat)
    decreases d, b, 0
  {
    match b
    case Empty => i == j
    case Then(head, tail) =>
      exists k: nat :: MatchItem(md, pat, head, d, i, k) && MatchBranch(md, pat, tail, d, k, j)
  }

  ghost predicate MatchAlts(md: MatchData, pat: Alts, alts: Alts, d: nat, i: nat, j: nat)
    decreases d, alts, 0
  {
    MatchBranch(md, pat, alts.branch, d, i, j) || (alts.Or? && MatchAlts(md, pat, alts.rest, d, i, j))
  }

  /** n + 1 matches of the alternatives, one after the other, cover subject[i..j]. */
  ghost predicate MatchTimes(md: MatchData, pat: Alts, alts: Alts, d: nat, i: nat, j: nat, n: nat)
    decreases d, alts, 1, n
  {
    if n == 0 then MatchAlts(md, pat, alts, d, i, j)
    else exists k: nat :: MatchAlts(md, pat, alts, d, i, k) && MatchTimes(md, pat, alts, d, k, j, n - 1)
  }

  /** The whole pattern matches subject[i..j]; the options count for the groups it calls. */
  ghost predicate RunMatches(md: MatchData, pat: Alts, i: nat, j: nat) {
    exists d: nat :: MatchAlts(md, pat, pat, d, i, j)
  }

  /** The whole pattern matches subject[i..j], and the options let the match be reported. */
  ghost predicate Matches(md: MatchData, pat: Alts, i: nat, j: nat) {
    Recordable(md, i, j) && RunMatches(md, pat, i, j)
  }

  lemma Bytes2RoundTrip(code: seq<byte>, o: nat, n: nat)
    requires n < 0x10000 && HasAt(code, o, Bytes2(n))
    ensures Get(code, o) == n
  {
    HasAtByte(code, o, Bytes2(n), 0);
    HasAtByte(code, o, Bytes2(n), 1);
  }
}
