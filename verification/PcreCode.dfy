/**
 Compiled pattern code of the 8-bit library as configured in the repository (no UTF, LINK_SIZE 2,
 IMM2_SIZE 2), and what the DFA matcher may do at one opcode.  A state of the matcher is an offset
 into the code with a repeat count; `Edge` says which state at which subject position may follow
 which, and `Accepts` which subject positions the end of a bracket can be reached at.
 */
module PcreCode {

  import opened Bytes

  // Opcode numbers (pcre_internal.h:1878-2126).
  const OP_END := 0
  const OP_NOT_DIGIT := 6
  const OP_DIGIT := 7
  const OP_NOT_WHITESPACE := 8
  const OP_WHITESPACE := 9
  const OP_NOT_WORDCHAR := 10
  const OP_WORDCHAR := 11
  const OP_ANY := 12
  const OP_ALLANY := 13
  const OP_CHAR := 29
  const OP_CHARI := 30
  const OP_NOT := 31
  const OP_NOTI := 32
  const OP_STAR := 33
  const OP_STARI := 46
  const OP_NOTSTAR := 59
  const OP_TYPESTAR := 85
  const OP_CRSTAR := 98
  const OP_CRMINSTAR := 99
  const OP_CRPLUS := 100
  const OP_CRMINPLUS := 101
  const OP_CRQUERY := 102
  const OP_CRMINQUERY := 103
  const OP_CRRANGE := 104
  const OP_CRMINRANGE := 105
  const OP_CRPOSSTAR := 106
  const OP_CRPOSPLUS := 107
  const OP_CRPOSQUERY := 108
  const OP_CRPOSRANGE := 109
  const OP_CLASS := 110
  const OP_NCLASS := 111
  const OP_RECURSE := 117
  const OP_ALT := 119
  const OP_KET := 120
  const OP_KETRMAX := 121
  const OP_KETRMIN := 122
  const OP_BRA := 131
  const OP_CBRA := 133
  const OP_SBRA := 136
  const OP_SCBRA := 138
  const OP_BRAZERO := 146
  const OP_BRAMINZERO := 147
  const OP_SKIPZERO := 161

  // Positions inside each set of 13 single-character repeat opcodes (pcre_internal.h:1928-1942).
  const MINSTAR := 1
  const PLUS := 2
  const MINPLUS := 3
  const QUERY := 4
  const MINQUERY := 5
  const UPTO := 6
  const MINUPTO := 7
  const EXACT := 8
  const POSSTAR := 9
  const POSPLUS := 10
  const POSQUERY := 11
  const POSUPTO := 12
  const REPEATS := 13

  // ---------- Character tests ----------

  type table = t: seq<byte> | |t| == 256 witness seq(256, _ => 0)

  /** Character tables, and the newline character: the newline setting is one fixed character. */
  datatype Tables = Tables(lcc: table, fcc: table, ctypes: table, nl: byte)

  datatype CharTest =
    | Literal(d: byte, caseless: bool, negated: bool)
    | Folded(d: byte)
    | Type(d: byte)
    | Class(bits: seq<byte>)

  function Bit(k: nat): (r: nat)
    requires k < 8
    ensures r > 0
  {
    if k == 0 then 1 else 2 * Bit(k - 1)
  }

  predicate HasBit(b: byte, k: nat)
    requires k < 8
  {
    (b / Bit(k)) % 2 == 1
  }

  /** Whether a character with these type bits is of type d; space, digit and word are bits 0, 2 and 4. */
  predicate TypeBit(ctype: byte, d: byte) {
    if d == OP_NOT_DIGIT then !HasBit(ctype, 2)
    else if d == OP_DIGIT then HasBit(ctype, 2)
    else if d == OP_NOT_WHITESPACE then !HasBit(ctype, 0)
    else if d == OP_WHITESPACE then HasBit(ctype, 0)
    else if d == OP_NOT_WORDCHAR then !HasBit(ctype, 4)
    else if d == OP_WORDCHAR then HasBit(ctype, 4)
    else d == OP_ANY || d == OP_ALLANY
  }

  /** Whether character c passes the test. */
  predicate Passes(tb: Tables, t: CharTest, c: byte) {
    match t
    case Literal(d, caseless, negated) => (c == d || (caseless && c == tb.fcc[d])) == !negated
    case Folded(d) => tb.lcc[c] == tb.lcc[d]
    case Type(d) => (d != OP_ANY || c != tb.nl) && TypeBit(tb.ctypes[c], d)
    case Class(bits) => c / 8 < |bits| && HasBit(bits[c / 8], c % 8)
  }

  // ---------- Instructions ----------

  /** How often a single-character item repeats; max 0 is no limit.  A state keeps its count only if counted. */
  datatype RepKind = RepKind(min: nat, max: nat, possessive: bool, counted: bool)

  datatype Instr =
    | Eps(targets: seq<nat>)
    | One(test: CharTest, next: nat)
    | Rep(test: CharTest, kind: RepKind, next: nat)
    | Call(callpat: nat, group: nat, next: nat)
    | Stop

  predicate IsAltAt(code: seq<byte>, o: nat, n: nat) {
    o < n < |code| && code[n] == OP_ALT
  }

  /** Follows links from a bracket opener or an ALT to the closing bracket. */
  function ChainEnd(code: seq<byte>, o: nat): (r: nat)
    decreases |code| - o
  {
    var n := o + Get(code, o + 1);
    if IsAltAt(code, o, n) then ChainEnd(code, n) else n
  }

  /** The starts of all branches but the first. */
  function AltStarts(code: seq<byte>, o: nat): seq<nat>
    decreases |code| - o
  {
    var n := o + Get(code, o + 1);
    if IsAltAt(code, o, n) then [n + 3] + AltStarts(code, n) else []
  }

  /** The kind of one of the 13 single-character repeats with bound n. */
  function RepeatKind(k: nat, n: nat): RepKind
    requires k < REPEATS
  {
    if k == 0 || k == MINSTAR || k == POSSTAR then RepKind(0, 0, k == POSSTAR, false)
    else if k == PLUS || k == MINPLUS || k == POSPLUS then RepKind(1, 0, k == POSPLUS, true)
    else if k == QUERY || k == MINQUERY || k == POSQUERY then RepKind(0, 1, k == POSQUERY, true)
    else if k == EXACT then RepKind(n, n, false, true)
    else RepKind(0, n, k == POSUPTO, true)
  }

  predicate HasBound(k: nat) {
    k == UPTO || k == MINUPTO || k == EXACT || k == POSUPTO
  }

  /** A repeat opcode, its bound if it has one, then the character (or type) it repeats. */
  function DecodeRepeat(code: seq<byte>, o: nat): Instr
    requires OP_STAR <= At(code, o) < OP_CRSTAR
  {
    var k := (At(code, o) - OP_STAR) % REPEATS;
    var family := (At(code, o) - OP_STAR) / REPEATS;
    var w := if HasBound(k) then 2 else 0;
    var d := At(code, o + 1 + w);
    var test := if family == 4 then Type(d) else Literal(d, family == 1 || family == 3, family >= 2);
    if family == 4 && !(OP_NOT_DIGIT <= d <= OP_ALLANY) then Stop
    else if HasBound(k) && Get(code, o + 1) == 0 then Stop
    else Rep(test, RepeatKind(k, Get(code, o + 1)), o + 2 + w)
  }

  /** A class: 32 bytes of bits, then possibly one of the class repeat opcodes. */
  function DecodeClass(code: seq<byte>, o: nat): Instr
  {
    if o + 33 >= |code| then Stop else
    var test := Class(code[o + 1..o + 33]);
    var e := code[o + 33];
    if e == OP_CRSTAR || e == OP_CRMINSTAR || e == OP_CRPOSSTAR then
      Rep(test, RepKind(0, 0, e == OP_CRPOSSTAR, false), o + 34)
    else if e == OP_CRPLUS || e == OP_CRMINPLUS || e == OP_CRPOSPLUS then
      Rep(test, RepKind(1, 0, e == OP_CRPOSPLUS, true), o + 34)
    else if e == OP_CRQUERY || e == OP_CRMINQUERY || e == OP_CRPOSQUERY then
      Rep(test, RepKind(0, 1, e == OP_CRPOSQUERY, true), o + 34)
    else if e == OP_CRRANGE || e == OP_CRMINRANGE then
      Rep(test, RepKind(Get(code, o + 34), Get(code, o + 36), false, true), o + 38)
    else if e == OP_CRPOSRANGE then Stop
    else One(test, o + 33)
  }

  function DecodeBracket(code: seq<byte>, o: nat): Instr
  {
    var op := At(code, o);
    if op == OP_KET then Eps([o + 3])
    else if op == OP_KETRMAX || op == OP_KETRMIN then
      if Get(code, o + 1) <= o then Eps([o + 3, o - Get(code, o + 1)]) else Stop
    else if op == OP_ALT then Eps([ChainEnd(code, o)])
    else if op == OP_BRA || op == OP_SBRA then Eps([o + 3] + AltStarts(code, o))
    else if op == OP_CBRA || op == OP_SCBRA then Eps([o + 5] + AltStarts(code, o))
    else if op == OP_BRAZERO || op == OP_BRAMINZERO then Eps([o + 1, ChainEnd(code, o + 1) + 3])
    else if op == OP_SKIPZERO then Eps([ChainEnd(code, o + 1) + 3])
    else Stop
  }

  /** The group number of a called bracket: 0 for the whole pattern (pcre_dfa_exec.c:2795-2796). */
  function GroupNumber(code: seq<byte>, callpat: nat): nat {
    if callpat == 0 then 0 else Get(code, callpat + 3)
  }

  /** The instruction at o; Stop for an opcode the model does not cover. */
  function Decode(code: seq<byte>, o: nat): Instr {
    var op := At(code, o);
    if OP_NOT_DIGIT <= op <= OP_ALLANY then One(Type(op), o + 1)
    else if op == OP_CHAR then One(Literal(At(code, o + 1), false, false), o + 2)
    else if op == OP_CHARI then One(Folded(At(code, o + 1)), o + 2)
    else if op == OP_NOT then One(Literal(At(code, o + 1), false, true), o + 2)
    else if op == OP_NOTI then One(Literal(At(code, o + 1), true, true), o + 2)
    else if OP_STAR <= op < OP_CRSTAR then DecodeRepeat(code, o)
    else if op == OP_CLASS || op == OP_NCLASS then DecodeClass(code, o)
    else if op == OP_RECURSE then
      Call(Get(code, o + 1), GroupNumber(code, Get(code, o + 1)), o + 3)
    else DecodeBracket(code, o)
  }

  // ---------- Valid code ----------

  /** Links strictly forward and inside the code, so that walking the branches ends. */
  ghost predicate ChainOk(code: seq<byte>, o: nat)
    decreases |code| - o
  {
    var n := o + Get(code, o + 1);
    o + 3 <= |code| && o < n < |code| && (code[n] == OP_ALT ==> ChainOk(code, n))
  }

  predicate IsOpener(op: byte) {
    op == OP_BRA || op == OP_SBRA || op == OP_CBRA || op == OP_SCBRA
  }

  function OpenerLength(op: byte): nat {
    if op == OP_CBRA || op == OP_SCBRA then 5 else 3
  }

  /** Bytes of the instruction at o, up to the last one the matcher reads. */
  function Reads(code: seq<byte>, o: nat): nat {
    var op := At(code, o);
    if OP_NOT_DIGIT <= op <= OP_ALLANY then 1
    else if OP_CHAR <= op <= OP_NOTI then 2
    else if OP_STAR <= op < OP_CRSTAR then
      if HasBound((op - OP_STAR) % REPEATS) then 4 else 2
    else if op == OP_CLASS || op == OP_NCLASS then
      if At(code, o + 33) == OP_CRRANGE || At(code, o + 33) == OP_CRMINRANGE then 38 else 34
    else if op == OP_BRAZERO || op == OP_BRAMINZERO || op == OP_SKIPZERO then 4
    else OpenerLength(op)
  }

  /** The instruction at o is one the model covers and all the matcher reads of it lies inside the code. */
  ghost predicate InstrOk(code: seq<byte>, o: nat) {
    && o + Reads(code, o) <= |code|
    && !Decode(code, o).Stop?
    && var op := At(code, o);
    && (IsOpener(op) || op == OP_ALT ==> ChainOk(code, o))
    && (op == OP_BRAZERO || op == OP_BRAMINZERO || op == OP_SKIPZERO ==>
          IsOpener(At(code, o + 1)) && ChainOk(code, o + 1))
    && (Decode(code, o).Rep? ==> KindOk(Decode(code, o).kind))
  }

  /** A bound is not below the least number of repeats. */
  predicate KindOk(kind: RepKind) {
    && (kind.max != 0 ==> kind.min <= kind.max)
    && (!kind.counted ==> kind.min == 0 && kind.max == 0)
  }

  /** A bracket that a subpattern call may start at: the whole pattern or a capturing bracket. */
  ghost predicate IsCallable(code: seq<byte>, c: nat) {
    && c + 5 <= |code|
    && ChainOk(code, c)
    && IsOpener(code[c])
    && (c != 0 ==> OpenerLength(code[c]) == 5)
    && OP_KET <= At(code, ChainEnd(code, c)) <= OP_KETRMIN
  }

  /** Where control goes inside the same run: after the instruction, or around again. */
  function Targets(code: seq<byte>, o: nat): seq<nat> {
    match Decode(code, o)
    case Eps(ts) => ts
    case One(_, next) => [next]
    case Rep(_, _, next) => [next, o]
    case Call(_, _, next) => [next]
    case Stop => []
  }

  /**
   A run of the bracket at c stays at the instructions in `region`: they are valid, everything but
   the closing opcode leads back into the region, and calls are to brackets in `callees`.
   */
  ghost predicate Region(code: seq<byte>, callees: set<nat>, c: nat, region: set<nat>) {
    && IsCallable(code, c)
    && (forall t <- Targets(code, c) :: t in region)
    && (forall o <- region :: InstrOk(code, o))
    && (forall o <- region :: Decode(code, o).Call? ==> Decode(code, o).callpat in callees)
    && (forall o <- region, t <- Targets(code, o) :: o != ChainEnd(code, c) ==> t in region)
  }

  /** Every bracket that is run has a region. */
  ghost predicate ValidCode(code: seq<byte>, callees: set<nat>) {
    forall c <- callees :: exists region: set<nat> :: Region(code, callees, c, region)
  }

  /** The bracket at c can be run without meeting a subpattern call. */
  ghost predicate CallFree(code: seq<byte>, c: nat) {
    exists region: set<nat> :: Region(code, {}, c, region)
  }

  // ---------- What the matcher may do ----------

  /** PCRE_NOTEMPTY, PCRE_NOTEMPTY_ATSTART, PCRE_PARTIAL_HARD, PCRE_PARTIAL_SOFT, PCRE_DFA_RESTART. */
  datatype Options = Options(notEmpty: bool, notEmptyAtStart: bool, partialHard: bool, partialSoft: bool,
                             restart: bool)

  /** The unchanging part of the match block. */
  datatype MatchData = MatchData(code: seq<byte>, subject: seq<byte>, tables: Tables, startOffset: nat, opts: Options)

  /** A matcher state: about to run the instruction at off, at subject position pos, after count repeats. */
  datatype Config = Config(pos: nat, off: nat, count: nat)

  /** Whether a match of subject[start..q] is reported (pcre_dfa_exec.c:785-788). */
  predicate Recordable(md: MatchData, start: nat, q: nat) {
    q > start || (!md.opts.notEmpty && (!md.opts.notEmptyAtStart || start > md.startOffset))
  }

  /** A repeat may be left after count characters, unless it is possessive and can go on. */
  predicate MayLeave(kind: RepKind, count: nat, matched: bool) {
    count >= kind.min && !(kind.possessive && matched)
  }

  /** One more character uses up the repeat. */
  predicate Exhausts(kind: RepKind, count: nat) {
    kind.max != 0 && count + 1 >= kind.max
  }

  predicate Sees(md: MatchData, t: CharTest, p: nat) {
    p < |md.subject| && Passes(md.tables, t, md.subject[p])
  }

  /**
   Whether b may follow a in a run that stops at the closing bracket `end`.  `called` says whether
   the group called at a matches from a's position to b's.
   */
  ghost predicate Step(md: MatchData, end: nat, a: Config, b: Config, called: bool) {
    && a.off != end
    && match Decode(md.code, a.off)
       case Eps(ts) => b.pos == a.pos && b.count == 0 && b.off in ts
       case One(t, next) => Sees(md, t, a.pos) && b == Config(a.pos + 1, next, 0)
       case Rep(t, kind, next) =>
         var seen := Sees(md, t, a.pos);
         || (MayLeave(kind, a.count, seen) && b == Config(a.pos, next, 0))
         || (seen && Exhausts(kind, a.count) && b == Config(a.pos + 1, next, 0))
         || (seen && !Exhausts(kind, a.count) &&
             b == Config(a.pos + 1, a.off, if kind.counted then a.count + 1 else 0))
       case Call(_, _, next) => a.pos <= b.pos <= |md.subject| && b.off == next && b.count == 0 && called
       case Stop => false
  }

  /** Step, with calls nested at most d deep. */
  ghost predicate Edge(md: MatchData, end: nat, d: nat, a: Config, b: Config)
    decreases d, 0, 0
  {
    var ins := Decode(md.code, a.off);
    Step(md, end, a, b, ins.Call? && d > 0 && Calls(md, ins.callpat, d - 1, a.pos, b.pos))
  }

  /** In n steps, with calls nested at most d deep, a reaches `end` at position q. */
  ghost predicate Accepts(md: MatchData, end: nat, d: nat, a: Config, q: nat, n: nat)
    decreases d, 1, n
  {
    if n == 0 then a.off == end && a.pos == q
    else exists m: Config :: Edge(md, end, d, a, m) && Accepts(md, end, d, m, q, n - 1)
  }

  /** The bracket at callpat, run on its own from i, reports a match that ends at j. */
  ghost predicate Calls(md: MatchData, callpat: nat, d: nat, i: nat, j: nat)
    decreases d, 2, 0
  {
    && Recordable(md, i, j)
    && exists n: nat :: Accepts(md, ChainEnd(md.code, callpat), d, Config(i, callpat, 0), j, n)
  }

  /** Calls, however deep the nesting. */
  ghost predicate CallMatches(md: MatchData, callpat: nat, i: nat, j: nat) {
    exists d: nat :: Calls(md, callpat, d, i, j)
  }

  ghost predicate AnyEdge(md: MatchData, end: nat, a: Config, b: Config) {
    var ins := Decode(md.code, a.off);
    Step(md, end, a, b, ins.Call? && CallMatches(md, ins.callpat, a.pos, b.pos))
  }

  /** In n steps of a run that stops at `end`, a reaches offset `goal` at position q. */
  ghost predicate AnyAccepts(md: MatchData, end: nat, goal: nat, a: Config, q: nat, n: nat)
    decreases n
  {
    if n == 0 then a.off == goal && a.pos == q
    else exists m: Config :: AnyEdge(md, end, a, m) && AnyAccepts(md, end, goal, m, q, n - 1)
  }

  ghost predicate Reaches(md: MatchData, end: nat, goal: nat, a: Config, q: nat) {
    exists n: nat :: AnyAccepts(md, end, goal, a, q, n)
  }

  // ---------- Depth of nesting ----------

  lemma {:induction false} AcceptsMonotone(md: MatchData, end: nat, d: nat, e: nat, a: Config, q: nat, n: nat)
    requires d <= e && Accepts(md, end, d, a, q, n)
    ensures Accepts(md, end, e, a, q, n)
    decreases d, 1, n
  {
    if n != 0 {
      var m: Config :| Edge(md, end, d, a, m) && Accepts(md, end, d, m, q, n - 1);
      EdgeMonotone(md, end, d, e, a, m);
      AcceptsMonotone(md, end, d, e, m, q, n - 1);
    }
  }

  lemma {:induction false} EdgeMonotone(md: MatchData, end: nat, d: nat, e: nat, a: Config, b: Config)
    requires d <= e && Edge(md, end, d, a, b)
    ensures Edge(md, end, e, a, b)
    decreases d, 0, 0
  {
    var ins := Decode(md.code, a.off);
    if ins.Call? {
      var callEnd := ChainEnd(md.code, ins.callpat);
      var start := Config(a.pos, ins.callpat, 0);
      var n: nat :| Accepts(md, callEnd, d - 1, start, b.pos, n);
      AcceptsMonotone(md, callEnd, d - 1, e - 1, start, b.pos, n);
      assert Calls(md, ins.callpat, e - 1, a.pos, b.pos);
    }
  }

  lemma {:induction false} AcceptsLifts(md: MatchData, end: nat, d: nat, a: Config, q: nat, n: nat)
    requires Accepts(md, end, d, a, q, n)
    ensures AnyAccepts(md, end, end, a, q, n)
    decreases n
  {
    if n != 0 {
      var m: Config :| Edge(md, end, d, a, m) && Accepts(md, end, d, m, q, n - 1);
      var ins := Decode(md.code, a.off);
      if ins.Call? {
        assert Calls(md, ins.callpat, d - 1, a.pos, m.pos);
      }
      assert AnyEdge(md, end, a, m);
      AcceptsLifts(md, end, d, m, q, n - 1);
    }
  }

  lemma EdgeSinks(md: MatchData, end: nat, a: Config, b: Config) returns (d: nat)
    requires AnyEdge(md, end, a, b)
    ensures Edge(md, end, d, a, b)
  {
    hide Decode;
    var ins := Decode(md.code, a.off);
    d := 0;
    if ins.Call? {
      var e: nat :| Calls(md, ins.callpat, e, a.pos, b.pos);
      d := e + 1;
    }
  }

  lemma {:induction false} AcceptsSinks(md: MatchData, end: nat, a: Config, q: nat, n: nat) returns (d: nat)
    requires AnyAccepts(md, end, end, a, q, n)
    ensures Accepts(md, end, d, a, q, n)
    decreases n
  {
    d := 0;
    if n != 0 {
      var m: Config :| AnyEdge(md, end, a, m) && AnyAccepts(md, end, end, m, q, n - 1);
      d := AcceptsSinks(md, end, m, q, n - 1);
      var e := EdgeSinks(md, end, a, m);
      hide Edge, AnyEdge;
      var top := if d < e then e else d;
      EdgeMonotone(md, end, e, top, a, m);
      AcceptsMonotone(md, end, d, top, m, q, n - 1);
      d := top;
    }
  }

  lemma CallsRun(md: MatchData, callpat: nat, d: nat, i: nat, j: nat) returns (n: nat)
    requires Calls(md, callpat, d, i, j)
    ensures Accepts(md, ChainEnd(md.code, callpat), d, Config(i, callpat, 0), j, n)
  {
    n :| Accepts(md, ChainEnd(md.code, callpat), d, Config(i, callpat, 0), j, n);
  }

  /** Running a bracket once finds exactly what a call of it finds: nesting depth does not matter. */
  lemma CallIsRun(md: MatchData, callpat: nat, i: nat, j: nat)
    ensures CallMatches(md, callpat, i, j) <==>
            var end := ChainEnd(md.code, callpat);
            Recordable(md, i, j) && Reaches(md, end, end, Config(i, callpat, 0), j)
  {
    var end := ChainEnd(md.code, callpat);
    var start := Config(i, callpat, 0);
    if CallMatches(md, callpat, i, j) {
      var d: nat :| Calls(md, callpat, d, i, j);
      var n := CallsRun(md, callpat, d, i, j);
      assert Accepts(md, end, d, start, j, n);
      AcceptsLifts(md, end, d, start, j, n);
    }
    if Recordable(md, i, j) && Reaches(md, end, end, start, j) {
      var n: nat :| AnyAccepts(md, end, end, start, j, n);
      var d := AcceptsSinks(md, end, start, j, n);
      assert Calls(md, callpat, d, i, j);
    }
  }
}
