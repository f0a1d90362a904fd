/**
 What a pattern's tree matches, spelled out: which characters pass a test, from the bits of the tables as numbers; how
 many characters a repeat takes; and sequences, alternatives, loops and calls by the places at which the subject is cut.
 */
module PcreLanguage {
  import opened Bytes
  import opened PcreCode
  import opened PcrePattern
  import opened PcreMeaning

  // ---------- Characters ----------

  lemma BitIs(b: byte, k: nat)
    requires k < 8
    ensures HasBit(b, k) <==> b / [1, 2, 4, 8, 16, 32, 64, 128][k] % 2 == 1
  {
    assert Bit(0) == 1 && Bit(1) == 2 && Bit(2) == 4 && Bit(3) == 8;
    assert Bit(4) == 16 && Bit(5) == 32 && Bit(6) == 64 && Bit(7) == 128;
  }

  /** A class passes a character if its bit is set: byte c / 8 of the map, the lowest bit first. */
  lemma ClassMeans(tb: Tables, bits: seq<byte>, c: byte)
    requires |bits| == 32
    ensures Passes(tb, Class(bits), c) <==> bits[c / 8] / [1, 2, 4, 8, 16, 32, 64, 128][c % 8] % 2 == 1
  {
    BitIs(bits[c / 8], c % 8);
  }

  /** The types, by opcode: \D, \d, \S, \s, \W, \w, a dot, and any character. */
  lemma TypeMeans(tb: Tables, c: byte)
    ensures Passes(tb, Type(6), c) <==> tb.ctypes[c] / 4 % 2 == 0
    ensures Passes(tb, Type(7), c) <==> tb.ctypes[c] / 4 % 2 == 1
    ensures Passes(tb, Type(8), c) <==> tb.ctypes[c] % 2 == 0
    ensures Passes(tb, Type(9), c) <==> tb.ctypes[c] % 2 == 1
    ensures Passes(tb, Type(10), c) <==> tb.ctypes[c] / 16 % 2 == 0
    ensures Passes(tb, Type(11), c) <==> tb.ctypes[c] / 16 % 2 == 1
    ensures Passes(tb, Type(12), c) <==> c != tb.nl
    ensures Passes(tb, Type(13), c)
  {
    hide HasBit;
    BitIs(tb.ctypes[c], 0);
    BitIs(tb.ctypes[c], 2);
    BitIs(tb.ctypes[c], 4);
  }

  /** A character, or its other case if the case does not matter; negated, any other. */
  lemma LetterMeans(tb: Tables, d: byte, c: byte)
    ensures Passes(tb, Literal(d, false, false), c) <==> c == d
    ensures Passes(tb, Literal(d, true, false), c) <==> c == d || c == tb.fcc[d]
    ensures Passes(tb, Literal(d, false, true), c) <==> c != d
    ensures Passes(tb, Literal(d, true, true), c) <==> c != d && c != tb.fcc[d]
    ensures Passes(tb, Folded(d), c) <==> tb.lcc[c] == tb.lcc[d]
  {
  }

  /** A number from its bits, the lowest first. */
  function Packed(bits: seq<bool>): nat {
    if bits == [] then 0 else (if bits[0] then 1 else 0) + 2 * Packed(bits[1..])
  }

  lemma Halve(n: nat, k: nat)
    requires 0 < k < 8
    ensures n / [1, 2, 4, 8, 16, 32, 64, 128][k] == n / 2 / [1, 2, 4, 8, 16, 32, 64, 128][k - 1]
  {
  }

  lemma {:induction false} PackedBit(bits: seq<bool>, k: nat)
    requires k < |bits| <= 8
    ensures Packed(bits) / [1, 2, 4, 8, 16, 32, 64, 128][k] % 2 == (if bits[k] then 1 else 0)
    decreases k
  {
    if k > 0 {
      assert Packed(bits) / 2 == Packed(bits[1..]);
      Halve(Packed(bits), k);
      PackedBit(bits[1..], k - 1);
    }
  }

  lemma {:induction false} PackedFits(bits: seq<bool>)
    requires |bits| <= 8
    ensures Packed(bits) < [1, 2, 4, 8, 16, 32, 64, 128, 256][|bits|]
    decreases |bits|
  {
    if bits != [] {
      PackedFits(bits[1..]);
    }
  }

  /** Which of the eight characters from 8 * k on are in the set. */
  function Eight(cs: set<byte>, k: nat): (r: seq<bool>)
    requires k < 32
    ensures |r| == 8
  {
    seq(8, j requires 0 <= j < 8 => 8 * k + j in cs)
  }

  function MapByte(cs: set<byte>, k: nat): byte
    requires k < 32
  {
    PackedFits(Eight(cs, k));
    Packed(Eight(cs, k))
  }

  /** The class of these characters. */
  function ClassOf(cs: set<byte>): (r: CharTest)
    ensures r.Class? && |r.bits| == 32
  {
    Class(seq(32, k requires 0 <= k < 32 => MapByte(cs, k)))
  }

  /** The class of a set of characters is passed by exactly those. */
  lemma ClassOfMeans(tb: Tables, cs: set<byte>, c: byte)
    ensures Passes(tb, ClassOf(cs), c) <==> c in cs
  {
    hide Packed, Passes, HasBit;
    ClassMeans(tb, ClassOf(cs).bits, c);
    PackedBit(Eight(cs, c / 8), c % 8);
    assert ClassOf(cs).bits[c / 8] == MapByte(cs, c / 8) == Packed(Eight(cs, c / 8));
  }

  // ---------- Repeats ----------

  /** All the characters from i to j pass the test. */
  predicate Stretch(md: MatchData, t: CharTest, i: nat, j: nat) {
    i <= j <= |md.subject| && forall k :: i <= k < j ==> Passes(md.tables, t, md.subject[k])
  }

  /** A repeat may take n characters; the upper limit of a class repeat may be missing. */
  predicate Allowed(q: Quant, n: nat) {
    match q
    case Star(_) => true
    case Plus(_) => n >= 1
    case Query(_) => n <= 1
    case Upto(m, _) => n <= m
    case Exact(m) => n == m
    case Range(min, max, _) => min <= n && (max == 0 || n <= max)
  }

  predicate IsPossessive(q: Quant) {
    match q
    case Star(mode) => mode.Possessive?
    case Plus(mode) => mode.Possessive?
    case Query(mode) => mode.Possessive?
    case Upto(_, mode) => mode.Possessive?
    case _ => false
  }

  /** A repeat takes any allowed number of characters; a possessive one as many as it can. */
  lemma RepeatMeans(md: MatchData, pat: Alts, t: CharTest, q: Quant, d: nat, i: nat, j: nat)
    requires QuantOk(t, q)
    ensures SpanItem(md, pat, Repeat(t, q), d, i, j) <==>
            && Stretch(md, t, i, j) && Allowed(q, j - i)
            && (IsPossessive(q) ==> forall m: nat :: m > j && Stretch(md, t, i, m) ==> !Allowed(q, m - i))
  {
    hide Passes;
    if Stretch(md, t, i, j) && Sees(md, t, j) {
      assert Stretch(md, t, i, j + 1);
    }
    assert forall k :: i <= k < j && j <= |md.subject| ==> (Sees(md, t, k) <==> Passes(md.tables, t, md.subject[k]));
    forall m: nat | m > j && Stretch(md, t, i, m)
      ensures i <= j ==> Sees(md, t, j)
    {
    }
  }

  lemma SingleMeans(md: MatchData, pat: Alts, t: CharTest, d: nat, i: nat, j: nat)
    ensures SpanItem(md, pat, Single(t), d, i, j) <==> j == i + 1 && Stretch(md, t, i, j)
  {
    hide Passes;
  }

  // ---------- Sequences and alternatives ----------

  function ItemsOf(b: Branch): seq<Item> {
    match b
    case Empty => []
    case Then(head, tail) => [head] + ItemsOf(tail)
  }

  function BranchesOf(alts: Alts): seq<Branch> {
    match alts
    case Last(b) => [b]
    case Or(b, rest) => [b] + BranchesOf(rest)
  }

  /** The places ps cut subject[i..j] into n pieces. */
  predicate Cut(ps: seq<nat>, n: nat, i: nat, j: nat) {
    |ps| == n + 1 && ps[0] == i && ps[n] == j
  }

  /** A branch matches what its items match one after the other. */
  ghost predicate InTurn(md: MatchData, pat: Alts, items: seq<Item>, d: nat, ps: seq<nat>) {
    |ps| == |items| + 1 && forall k :: 0 <= k < |items| ==> SpanItem(md, pat, items[k], d, ps[k], ps[k + 1])
  }

  lemma {:induction false} BranchCuts(md: MatchData, pat: Alts, b: Branch, d: nat, i: nat, j: nat) returns (ps: seq<nat>)
    requires SpanBranch(md, pat, b, d, i, j)
    ensures Cut(ps, |ItemsOf(b)|, i, j) && InTurn(md, pat, ItemsOf(b), d, ps)
    decreases b
  {
    hide SpanItem;
    if b.Empty? {
      ps := [i];
    } else {
      var k: nat :| SpanItem(md, pat, b.head, d, i, k) && SpanBranch(md, pat, b.tail, d, k, j);
      var qs := BranchCuts(md, pat, b.tail, d, k, j);
      ps := [i] + qs;
    }
  }

  lemma {:induction false} CutsBranch(md: MatchData, pat: Alts, b: Branch, d: nat, i: nat, j: nat, ps: seq<nat>)
    requires Cut(ps, |ItemsOf(b)|, i, j) && InTurn(md, pat, ItemsOf(b), d, ps)
    ensures SpanBranch(md, pat, b, d, i, j)
    decreases b
  {
    hide SpanItem;
    if b.Then? {
      var items := ItemsOf(b);
      assert items[0] == b.head && items[1..] == ItemsOf(b.tail);
      forall k | 0 <= k < |items| - 1
        ensures SpanItem(md, pat, items[1..][k], d, ps[1..][k], ps[1..][k + 1])
      {
        assert SpanItem(md, pat, items[k + 1], d, ps[k + 1], ps[k + 2]);
      }
      CutsBranch(md, pat, b.tail, d, ps[1], j, ps[1..]);
    }
  }

  lemma BranchMeans(md: MatchData, pat: Alts, b: Branch, d: nat, i: nat, j: nat)
    ensures SpanBranch(md, pat, b, d, i, j) <==>
            exists ps: seq<nat> :: Cut(ps, |ItemsOf(b)|, i, j) && InTurn(md, pat, ItemsOf(b), d, ps)
  {
    hide SpanBranch, InTurn;
    if SpanBranch(md, pat, b, d, i, j) {
      var ps := BranchCuts(md, pat, b, d, i, j);
    }
    forall ps: seq<nat> | Cut(ps, |ItemsOf(b)|, i, j) && InTurn(md, pat, ItemsOf(b), d, ps)
      ensures SpanBranch(md, pat, b, d, i, j)
    {
      CutsBranch(md, pat, b, d, i, j, ps);
    }
  }

  lemma {:induction false} AltsPick(md: MatchData, pat: Alts, alts: Alts, d: nat, i: nat, j: nat) returns (k: nat)
    requires SpanAlts(md, pat, alts, d, i, j)
    ensures k < |BranchesOf(alts)| && SpanBranch(md, pat, BranchesOf(alts)[k], d, i, j)
    decreases alts
  {
    hide SpanBranch;
    k := 0;
    if !SpanBranch(md, pat, alts.branch, d, i, j) {
      var l := AltsPick(md, pat, alts.rest, d, i, j);
      assert BranchesOf(alts)[l + 1] == BranchesOf(alts.rest)[l];
      k := l + 1;
    }
  }

  lemma {:induction false} PickAlts(md: MatchData, pat: Alts, alts: Alts, d: nat, i: nat, j: nat, k: nat)
    requires k < |BranchesOf(alts)| && SpanBranch(md, pat, BranchesOf(alts)[k], d, i, j)
    ensures SpanAlts(md, pat, alts, d, i, j)
    decreases alts
  {
    hide SpanBranch;
    if k > 0 {
      assert BranchesOf(alts.rest)[k - 1] == BranchesOf(alts)[k];
      PickAlts(md, pat, alts.rest, d, i, j, k - 1);
    }
  }

  /** Alternatives match what one of the branches matches. */
  lemma AltsMeans(md: MatchData, pat: Alts, alts: Alts, d: nat, i: nat, j: nat)
    ensures SpanAlts(md, pat, alts, d, i, j) <==>
            exists k :: 0 <= k < |BranchesOf(alts)| && SpanBranch(md, pat, BranchesOf(alts)[k], d, i, j)
  {
    hide SpanBranch, SpanAlts;
    if SpanAlts(md, pat, alts, d, i, j) {
      var k := AltsPick(md, pat, alts, d, i, j);
    }
    forall k | 0 <= k < |BranchesOf(alts)| && SpanBranch(md, pat, BranchesOf(alts)[k], d, i, j)
      ensures SpanAlts(md, pat, alts, d, i, j)
    {
      PickAlts(md, pat, alts, d, i, j, k);
    }
  }

  // ---------- Groups ----------

  /** How often a group may match, by its closing opcode (KET, KETRMAX, KETRMIN) and what stands before it. */
  predicate Times(close: byte, zero: Zero, n: nat) {
    if zero == SkipZero then n == 0
    else if close == 120 then n == 1 || (zero != NoZero && n == 0)
    else zero != NoZero || n >= 1
  }

  ghost predicate Rounds(md: MatchData, pat: Alts, alts: Alts, d: nat, ps: seq<nat>) {
    forall k :: 0 <= k < |ps| - 1 ==> SpanAlts(md, pat, alts, d, ps[k], ps[k + 1])
  }

  lemma {:induction false} TimesCuts(md: MatchData, pat: Alts, alts: Alts, d: nat, i: nat, j: nat, n: nat)
    returns (ps: seq<nat>)
    requires SpanTimes(md, pat, alts, d, i, j, n)
    ensures Cut(ps, n + 1, i, j) && Rounds(md, pat, alts, d, ps)
    decreases n
  {
    hide SpanAlts;
    if n == 0 {
      ps := [i, j];
    } else {
      var k: nat :| SpanAlts(md, pat, alts, d, i, k) && SpanTimes(md, pat, alts, d, k, j, n - 1);
      var qs := TimesCuts(md, pat, alts, d, k, j, n - 1);
      ps := [i] + qs;
    }
  }

  lemma {:induction false} CutsTimes(md: MatchData, pat: Alts, alts: Alts, d: nat, i: nat, j: nat, n: nat, ps: seq<nat>)
    requires Cut(ps, n + 1, i, j) && Rounds(md, pat, alts, d, ps)
    ensures SpanTimes(md, pat, alts, d, i, j, n)
    decreases n
  {
    hide SpanAlts;
    assert SpanAlts(md, pat, alts, d, ps[0], ps[1]);
    if n != 0 {
      forall k | 0 <= k < |ps| - 2
        ensures SpanAlts(md, pat, alts, d, ps[1..][k], ps[1..][k + 1])
      {
        assert SpanAlts(md, pat, alts, d, ps[k + 1], ps[k + 2]);
      }
      CutsTimes(md, pat, alts, d, ps[1], j, n - 1, ps[1..]);
    }
  }

  lemma GroupCuts(md: MatchData, pat: Alts, item: Item, d: nat, i: nat, j: nat) returns (n: nat, ps: seq<nat>)
    requires item.Group? && 120 <= item.close <= 122 && SpanItem(md, pat, item, d, i, j)
    ensures Times(item.close, item.zero, n) && Cut(ps, n, i, j) && Rounds(md, pat, item.alts, d, ps)
  {
    hide SpanAlts, SpanTimes;
    if item.zero != NoZero && i == j {
      n, ps := 0, [i];
    } else if item.close == 120 {
      n, ps := 1, [i, j];
    } else {
      var m: nat :| SpanTimes(md, pat, item.alts, d, i, j, m);
      ps := TimesCuts(md, pat, item.alts, d, i, j, m);
      n := m + 1;
    }
  }

  lemma CutsGroup(md: MatchData, pat: Alts, item: Item, d: nat, i: nat, j: nat, n: nat, ps: seq<nat>)
    requires item.Group? && 120 <= item.close <= 122
    requires Times(item.close, item.zero, n) && Cut(ps, n, i, j) && Rounds(md, pat, item.alts, d, ps)
    ensures SpanItem(md, pat, item, d, i, j)
  {
    hide SpanAlts, SpanTimes;
    if n > 0 {
      assert n == 1 ==> SpanAlts(md, pat, item.alts, d, ps[0], ps[1]);
      CutsTimes(md, pat, item.alts, d, i, j, n - 1, ps);
    }
  }

  /** A group matches its alternatives as often as its opcodes say, one match after the other. */
  lemma GroupMeans(md: MatchData, pat: Alts, item: Item, d: nat, i: nat, j: nat)
    requires item.Group? && 120 <= item.close <= 122
    ensures SpanItem(md, pat, item, d, i, j) <==>
            exists n: nat, ps: seq<nat> ::
              Times(item.close, item.zero, n) && Cut(ps, n, i, j) && Rounds(md, pat, item.alts, d, ps)
  {
    hide SpanItem, Times, Rounds;
    if SpanItem(md, pat, item, d, i, j) {
      var n, ps := GroupCuts(md, pat, item, d, i, j);
    }
    forall n: nat, ps: seq<nat> | Times(item.close, item.zero, n) && Cut(ps, n, i, j) && Rounds(md, pat, item.alts, d, ps)
      ensures SpanItem(md, pat, item, d, i, j)
    {
      CutsGroup(md, pat, item, d, i, j, n, ps);
    }
  }

  // ---------- Calls ----------

  /** A capturing group with this number and these alternatives stands in the pattern (opcodes CBRA and SCBRA). */
  predicate ItemHasGroup(item: Item, g: nat, alts: Alts) {
    item.Group? &&
    (((item.open == 133 || item.open == 138) && item.number == g && item.alts == alts) || HasGroup(item.alts, g, alts))
  }

  predicate BranchHasGroup(b: Branch, g: nat, alts: Alts) {
    b.Then? && (ItemHasGroup(b.head, g, alts) || BranchHasGroup(b.tail, g, alts))
  }

  predicate HasGroup(pat: Alts, g: nat, alts: Alts)
    decreases pat
  {
    BranchHasGroup(pat.branch, g, alts) || (pat.Or? && HasGroup(pat.rest, g, alts))
  }

  lemma {:induction false} FoundItem(item: Item, o: nat, g: nat)
    ensures var f := FindInItem(item, o, g);
            if f.Found? then ItemHasGroup(item, g, f.alts) else forall a: Alts :: !ItemHasGroup(item, g, a)
    decreases item
  {
    if item.Group? {
      FoundAlts(item.alts, o + (if item.zero == NoZero then 0 else 1), OpenerLength(item.open), g);
    }
  }

  lemma {:induction false} FoundBranch(b: Branch, o: nat, g: nat)
    ensures var f := FindInBranch(b, o, g);
            if f.Found? then BranchHasGroup(b, g, f.alts) else forall a: Alts :: !BranchHasGroup(b, g, a)
    decreases b
  {
    if b.Then? {
      FoundItem(b.head, o, g);
      FoundBranch(b.tail, o + ItemSize(b.head), g);
    }
  }

  lemma {:induction false} FoundAlts(alts: Alts, o: nat, hdr: nat, g: nat)
    ensures var f := FindInAlts(alts, o, hdr, g);
            if f.Found? then HasGroup(alts, g, f.alts) else forall a: Alts :: !HasGroup(alts, g, a)
    decreases alts
  {
    FoundBranch(alts.branch, o + hdr, g);
    if alts.Or? {
      FoundAlts(alts.rest, o + hdr + BranchSize(alts.branch), 3, g);
    }
  }

  /** These alternatives are what a call of group g may run: the whole pattern, or a capturing group with the number. */
  predicate Called(pat: Alts, g: nat, alts: Alts) {
    if g == 0 then alts == pat else HasGroup(pat, g, alts)
  }

  /** A call matches what the alternatives of its group match, one level down. */
  lemma RecurseMeans(md: MatchData, pat: Alts, g: nat, d: nat, i: nat, j: nat)
    ensures SpanItem(md, pat, Recurse(g), d, i, j) ==>
              exists alts: Alts :: Called(pat, g, alts) && d > 0 && SpanAlts(md, pat, alts, d - 1, i, j)
    ensures (forall a: Alts, b: Alts :: Called(pat, g, a) && Called(pat, g, b) ==> a == b) ==>
              forall alts: Alts :: Called(pat, g, alts) && SpanAlts(md, pat, alts, d, i, j) ==>
                SpanItem(md, pat, Recurse(g), d + 1, i, j)
  {
    hide SpanAlts, HasGroup;
    FoundAlts(pat, 0, 3, g);
    if Body(pat, g).Found? {
      assert Called(pat, g, Body(pat, g).alts);
    }
  }

  // ---------- Numbers ----------

  /** The opcode numbers (pcre_internal.h:1878-2126). */
  lemma OpcodeNumbers()
    ensures OP_END == 0 && OP_NOT_DIGIT == 6 && OP_DIGIT == 7 && OP_NOT_WHITESPACE == 8 && OP_WHITESPACE == 9
    ensures OP_NOT_WORDCHAR == 10 && OP_WORDCHAR == 11 && OP_ANY == 12 && OP_ALLANY == 13
    ensures OP_CHAR == 29 && OP_CHARI == 30 && OP_NOT == 31 && OP_NOTI == 32
    ensures OP_STAR == 33 && OP_STARI == 46 && OP_NOTSTAR == 59 && OP_TYPESTAR == 85
    ensures OP_CRSTAR == 98 && OP_CRMINSTAR == 99 && OP_CRPLUS == 100 && OP_CRMINPLUS == 101 && OP_CRQUERY == 102
    ensures OP_CRMINQUERY == 103 && OP_CRRANGE == 104 && OP_CRMINRANGE == 105 && OP_CRPOSSTAR == 106
    ensures OP_CRPOSPLUS == 107 && OP_CRPOSQUERY == 108 && OP_CRPOSRANGE == 109
    ensures OP_CLASS == 110 && OP_NCLASS == 111 && OP_RECURSE == 117
    ensures OP_ALT == 119 && OP_KET == 120 && OP_KETRMAX == 121 && OP_KETRMIN == 122
    ensures OP_BRA == 131 && OP_CBRA == 133 && OP_SBRA == 136 && OP_SCBRA == 138
    ensures OP_BRAZERO == 146 && OP_BRAMINZERO == 147 && OP_SKIPZERO == 161
    ensures OpenerLength(131) == OpenerLength(136) == 3 && OpenerLength(133) == OpenerLength(138) == 5
  {
  }

  /** Two bytes as a number, the high one first. */
  lemma TwoBytes(code: seq<byte>, i: nat)
    requires i + 1 < |code|
    ensures Get(code, i) == 256 * code[i] as int + code[i + 1]
    ensures Bytes2(256 * code[i] as int + code[i + 1]) == code[i..i + 2]
  {
  }

  /** The code of one character. */
  lemma SingleNumbers(d: byte, bits: seq<byte>)
    ensures SingleCode(Literal(d, false, false)) == [29, d] && SingleCode(Folded(d)) == [30, d]
    ensures SingleCode(Literal(d, false, true)) == [31, d] && SingleCode(Literal(d, true, true)) == [32, d]
    ensures SingleCode(Type(d)) == [d] && SingleCode(Class(bits)) == [110] + bits
  {
  }

  /** The number of the first repeat opcode for a test: STAR, STARI, NOTSTAR, NOTSTARI or TYPESTAR. */
  function FirstRepeat(t: CharTest): byte
    requires t.Literal? || t.Type?
  {
    if t.Type? then 85 else if t.negated then (if t.caseless then 72 else 59) else if t.caseless then 46 else 33
  }

  /** The code of a repeat without a limit: greedy, lazy and possessive forms. */
  lemma RepeatNumbers(t: CharTest)
    requires t.Literal? || t.Type?
    ensures RepeatCode(t, Star(Greedy)) == [FirstRepeat(t), t.d] && RepeatCode(t, Star(Lazy)) == [FirstRepeat(t) + 1, t.d]
    ensures RepeatCode(t, Plus(Greedy)) == [FirstRepeat(t) + 2, t.d]
    ensures RepeatCode(t, Plus(Lazy)) == [FirstRepeat(t) + 3, t.d]
    ensures RepeatCode(t, Query(Greedy)) == [FirstRepeat(t) + 4, t.d]
    ensures RepeatCode(t, Query(Lazy)) == [FirstRepeat(t) + 5, t.d]
    ensures RepeatCode(t, Star(Possessive)) == [FirstRepeat(t) + 9, t.d]
    ensures RepeatCode(t, Plus(Possessive)) == [FirstRepeat(t) + 10, t.d]
    ensures RepeatCode(t, Query(Possessive)) == [FirstRepeat(t) + 11, t.d]
  {
  }

  /** With a limit, in two bytes, the high one first. */
  lemma LimitNumbers(t: CharTest, high: byte, low: byte)
    requires t.Literal? || t.Type?
    ensures var n := 256 * high as int + low;
            && RepeatCode(t, Upto(n, Greedy)) == [FirstRepeat(t) + 6, high, low, t.d]
            && RepeatCode(t, Upto(n, Lazy)) == [FirstRepeat(t) + 7, high, low, t.d]
            && RepeatCode(t, Exact(n)) == [FirstRepeat(t) + 8, high, low, t.d]
            && RepeatCode(t, Upto(n, Possessive)) == [FirstRepeat(t) + 12, high, low, t.d]
  {
    hide Bytes2;
    TwoBytes([high, low], 0);
  }

  /** The code of a class repeat. */
  lemma ClassNumbers(bits: seq<byte>)
    ensures RepeatCode(Class(bits), Star(Greedy)) == [110] + bits + [98]
    ensures RepeatCode(Class(bits), Star(Lazy)) == [110] + bits + [99]
    ensures RepeatCode(Class(bits), Plus(Greedy)) == [110] + bits + [100]
    ensures RepeatCode(Class(bits), Plus(Lazy)) == [110] + bits + [101]
    ensures RepeatCode(Class(bits), Query(Greedy)) == [110] + bits + [102]
    ensures RepeatCode(Class(bits), Query(Lazy)) == [110] + bits + [103]
    ensures RepeatCode(Class(bits), Star(Possessive)) == [110] + bits + [106]
    ensures RepeatCode(Class(bits), Plus(Possessive)) == [110] + bits + [107]
    ensures RepeatCode(Class(bits), Query(Possessive)) == [110] + bits + [108]
  {
  }

  /** With limits, two bytes each. */
  lemma RangeNumbers(bits: seq<byte>, a: byte, b: byte, c: byte, d: byte)
    ensures var min, max := 256 * a as int + b, 256 * c as int + d;
            && RepeatCode(Class(bits), Range(min, max, false)) == [110] + bits + [104, a, b, c, d]
            && RepeatCode(Class(bits), Range(min, max, true)) == [110] + bits + [105, a, b, c, d]
  {
    hide ClassQuant;
    QuantNumbers(a, b, c, d, false);
    QuantNumbers(a, b, c, d, true);
  }

  lemma QuantNumbers(a: byte, b: byte, c: byte, d: byte, lazy: bool)
    ensures ClassQuant(Range(256 * a as int + b, 256 * c as int + d, lazy)) == [if lazy then 105 else 104, a, b, c, d]
  {
    hide Bytes2;
    TwoBytes([a, b], 0);
    TwoBytes([c, d], 0);
    var op := if lazy then 105 else 104;
    assert [op] + [a, b] + [c, d] == [op, a, b, c, d];
  }

  lemma BytesOf(n: nat)
    requires n < 65536
    ensures Bytes2(n) == [n / 256, n % 256]
  {
  }

  lemma LinkNumbers(op: byte, n: nat, imm: seq<byte>, code: seq<byte>)
    requires n < 65536
    ensures [op] + Bytes2(n) + imm + code == [op, n / 256, n % 256] + imm + code
    ensures [op] + Bytes2(n) == [op, n / 256, n % 256]
  {
    BytesOf(n);
    assert [op] + [n / 256, n % 256] == [op, n / 256, n % 256];
  }

  /** The code of a bracket with one branch: the length to the end, the branch, the length back. */
  lemma BracketNumbers(open: byte, number: nat, b: Branch, close: byte, pat: Alts)
    requires BranchOk(b, pat) && (open == 131 || open == 136)
    ensures var n := 3 + |BranchCode(b, pat)|;
            n < 65536 ==> BracketCode(open, number, Last(b), close, pat) ==
                          [open, n / 256, n % 256] + BranchCode(b, pat) + [close, n / 256, n % 256]
  {
    hide BranchCode, BranchSize, BranchOk, Bytes2;
    var n := 3 + |BranchCode(b, pat)|;
    assert AltsOk(Last(b), pat);
    if n < 65536 {
      LinkNumbers(open, n, [], BranchCode(b, pat));
      LinkNumbers(close, n, [], []);
    }
  }

  /** One that captures has its number, in two bytes, before the branch. */
  lemma CaptureNumbers(open: byte, number: nat, b: Branch, close: byte, pat: Alts)
    requires BranchOk(b, pat) && (open == 133 || open == 138) && number < 65536
    ensures var n := 5 + |BranchCode(b, pat)|;
            n < 65536 ==> BracketCode(open, number, Last(b), close, pat) ==
                          [open, n / 256, n % 256, number / 256, number % 256] + BranchCode(b, pat)
                          + [close, n / 256, n % 256]
  {
    hide BranchCode, BranchSize, BranchOk, Bytes2;
    var n, imm := 5 + |BranchCode(b, pat)|, Bytes2(number);
    assert AltsOk(Last(b), pat);
    BytesOf(number);
    if n < 65536 {
      LinkNumbers(open, n, imm, BranchCode(b, pat));
      LinkNumbers(close, n, [], []);
    }
  }

  /** Further branches each begin with ALT and the length to the next; all lengths together lead back. */
  lemma BranchNumbers(open: byte, b: Branch, rest: Alts, pat: Alts)
    requires BranchOk(b, pat) && AltsOk(rest, pat)
    ensures var n := 3 + |BranchCode(b, pat)|;
            n < 65536 ==> AltsCode(open, [], Or(b, rest), pat) ==
                          [open, n / 256, n % 256] + BranchCode(b, pat) + AltsCode(119, [], rest, pat)
  {
    hide BranchCode, BranchSize, BranchOk, Bytes2;
    var n := 3 + |BranchCode(b, pat)|;
    assert AltsOk(Or(b, rest), pat);
    if n < 65536 {
      LinkNumbers(open, n, [], BranchCode(b, pat));
    }
  }

  /** BRAZERO, BRAMINZERO and SKIPZERO stand before a bracket; RECURSE is followed by the offset of its group. */
  lemma ItemNumbers(open: byte, number: nat, alts: Alts, close: byte, g: nat, pat: Alts)
    requires ItemOk(Group(open, number, alts, close, NoZero), pat)
    ensures var code := BracketCode(open, number, alts, close, pat);
            && ItemCode(Group(open, number, alts, close, NoZero), pat) == code
            && ItemCode(Group(open, number, alts, close, BraZero), pat) == [146] + code
            && ItemCode(Group(open, number, alts, close, BraMinZero), pat) == [147] + code
            && ItemCode(Group(open, number, alts, close, SkipZero), pat) == [161] + code
    ensures Body(pat, g).Found? && Body(pat, g).off < 65536 ==>
              ItemCode(Recurse(g), pat) == [117, Body(pat, g).off / 256, Body(pat, g).off % 256]
  {
    hide AltsOk, BracketCode, FindInAlts;
    var code := BracketCode(open, number, alts, close, pat);
    assert [] + code == code;
    if Body(pat, g).Found? {
      assert ItemOk(Recurse(g), pat);
    }
  }

  /** A whole pattern is a bracket without a number and END. */
  lemma PatternNumbers(pat: Alts)
    requires PatternOk(pat)
    ensures PatternCode(pat) == BracketCode(131, 0, pat, 120, pat) + [0]
  {
    hide BracketCode, AltsOk;
  }
}
