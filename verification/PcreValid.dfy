/**
 Compiled patterns are valid code: the matcher never reads outside the code, never meets an opcode it
 does not know, and a run of a bracket never leaves it.
 */
module PcreValid {
  import opened Bytes
  import opened PcreCode
  import opened PcrePattern
  import opened PcreLayout
  import opened PcreCorrect
  import opened PcreMeaning

  // ---------- Offsets of instructions ----------

  ghost function ItemOffs(item: Item, o: nat): set<nat>
    decreases item
  {
    match item
    case Group(open, _, alts, _, zero) =>
      var b := o + |ZeroCode(zero)|;
      {o, b, b + AltsSize(OpenerLength(open), alts)} + AltsOffs(alts, b, OpenerLength(open))
    case _ => {o}
  }

  ghost function BranchOffs(br: Branch, o: nat): set<nat>
    decreases br
  {
    match br
    case Empty => {}
    case Then(head, tail) => ItemOffs(head, o) + BranchOffs(tail, o + ItemSize(head))
  }

  ghost function AltsOffs(alts: Alts, o: nat, hdr: nat): set<nat>
    decreases alts
  {
    var next := o + hdr + BranchSize(alts.branch);
    BranchOffs(alts.branch, o + hdr) + (if alts.Or? then {next} + AltsOffs(alts.rest, next, 3) else {})
  }

  /** The brackets of these groups. */
  ghost function Brackets(pat: Alts, groups: set<nat>): set<nat> {
    set g | g in groups && Body(pat, g).Found? :: Body(pat, g).off
  }

  /** The brackets that are run: the whole pattern and those that are called. */
  ghost function Callees(pat: Alts): set<nat> {
    Brackets(pat, AltsCalls(pat) + {0})
  }

  /** The instruction at s is valid and leads into r. */
  ghost predicate Good(code: seq<byte>, callees: set<nat>, r: set<nat>, s: nat) {
    && InstrOk(code, s)
    && (Decode(code, s).Call? ==> Decode(code, s).callpat in callees)
    && (forall t <- Targets(code, s) :: t in r)
  }

  ghost predicate AllGood(code: seq<byte>, callees: set<nat>, r: set<nat>, xs: set<nat>) {
    forall s <- xs :: Good(code, callees, r, s)
  }

  lemma GoodUnion(code: seq<byte>, callees: set<nat>, r: set<nat>, xs: set<nat>, ys: set<nat>)
    requires AllGood(code, callees, r, xs) && AllGood(code, callees, r, ys)
    ensures AllGood(code, callees, r, xs + ys)
  {
    hide Good;
  }

  lemma BranchEntry(br: Branch, o: nat)
    ensures o in BranchOffs(br, o) || (br.Empty? && BranchSize(br) == 0)
  {
  }

  lemma TestItemGood(code: seq<byte>, item: Item, o: nat, pat: Alts, callees: set<nat>, r: set<nat>)
    requires ItemOk(item, pat) && (item.Single? || item.Repeat?)
    requires HasAt(code, o, ItemCode(item, pat)) && NoQuantAt(code, o + ItemSize(item))
    requires o in r && o + ItemSize(item) in r
    ensures Good(code, callees, r, o)
  {
    hide ItemCode, ChainOk, DecodeBracket, DecodeClass, DecodeRepeat;
    ItemCodes(item, pat);
    if item.Single? {
      SingleDecode(code, o, item.test, pat);
      SingleOpcode(code, o, item.test, pat);
    } else {
      RepeatDecode(code, o, item.test, item.quant, pat);
      RepeatByte(code, o, item.test, item.quant, pat);
    }
  }

  lemma SingleOpcode(code: seq<byte>, o: nat, t: CharTest, pat: Alts)
    requires ItemOk(Single(t), pat) && HasAt(code, o, SingleCode(t))
    ensures At(code, o) <= OP_CLASS
  {
    HasAtByte(code, o, SingleCode(t), 0);
  }

  lemma RepeatByte(code: seq<byte>, o: nat, t: CharTest, q: Quant, pat: Alts)
    requires ItemOk(Repeat(t, q), pat) && HasAt(code, o, RepeatCode(t, q))
    ensures At(code, o) <= OP_CLASS
  {
    HasAtByte(code, o, RepeatCode(t, q), 0);
  }

  lemma CallItemGood(md: MatchData, item: Item, o: nat, pat: Alts, calls: set<nat>, r: set<nat>)
    requires Compiled(md, pat) && ItemOk(item, pat) && item.Recurse? && ItemCalls(item) <= calls
    requires HasAt(md.code, o, ItemCode(item, pat)) && o + 3 in r
    ensures Good(md.code, Brackets(pat, calls), r, o)
  {
    hide ItemCode, ChainOk, DecodeBracket, DecodeClass, DecodeRepeat, Body, Compiled, AltsOk, BracketCode;
    var g := item.group;
    var open, close := BodyCode(md, pat, g);
    CallDecode(md, pat, g, o);
    ItemCodes(item, pat);
    HasAtByte(md.code, o, ItemCode(item, pat), 0);
    assert Body(pat, g).off in Brackets(pat, calls);
  }

  // ---------- Every instruction is good ----------

  lemma {:induction false} ItemGood(md: MatchData, item: Item, o: nat, pat: Alts, calls: set<nat>, r: set<nat>)
    requires Compiled(md, pat) && ItemOk(item, pat) && ItemCalls(item) <= calls
    requires HasAt(md.code, o, ItemCode(item, pat)) && NoQuantAt(md.code, o + ItemSize(item))
    requires ItemOffs(item, o) <= r && o + ItemSize(item) in r
    ensures AllGood(md.code, Brackets(pat, calls), r, ItemOffs(item, o))
    decreases item, 2
  {
    hide Decode, ItemCode, Compiled, Good, Brackets, Body, AltsOk;
    if item.Recurse? {
      CallItemGood(md, item, o, pat, calls, r);
    } else if item.Group? {
      GroupGood(md, item, o, pat, calls, r);
    } else {
      TestItemGood(md.code, item, o, pat, Brackets(pat, calls), r);
    }
  }

  lemma {:induction false} GroupGood(md: MatchData, item: Item, o: nat, pat: Alts, calls: set<nat>, r: set<nat>)
    requires Compiled(md, pat) && ItemOk(item, pat) && item.Group? && ItemCalls(item) <= calls
    requires HasAt(md.code, o, ItemCode(item, pat))
    requires ItemOffs(item, o) <= r && o + ItemSize(item) in r
    ensures AllGood(md.code, Brackets(pat, calls), r, ItemOffs(item, o))
    decreases item, 1
  {
    hide Decode, ItemCode, Compiled, Good, AllGood, Brackets, BracketCode, AltsSize, AltsOffs, AltsOk, ChainOk, ItemOffs,
         BracketOffs, AltStarts, ChainEnd, HasAt;
    CodeFits(md, pat);
    GroupLayout(md.code, o, item, pat);
    GroupOffs(item, o);
    var b := o + |ZeroCode(item.zero)|;
    BracketGood(md, item, b, pat, calls, r);
    if item.zero != NoZero {
      ZeroOfGroupGood(md, item, o, pat, calls, r);
      GoodUnion(md.code, Brackets(pat, calls), r, {o}, BracketOffs(item, b));
    }
  }

  /** The opcode in front of a bracket that may be skipped. */
  lemma ZeroOfGroupGood(md: MatchData, item: Item, o: nat, pat: Alts, calls: set<nat>, r: set<nat>)
    requires Compiled(md, pat) && ItemOk(item, pat) && item.Group? && item.zero != NoZero
    requires HasAt(md.code, o, ItemCode(item, pat))
    requires o + 1 in r && o + ItemSize(item) in r
    ensures AllGood(md.code, Brackets(pat, calls), r, {o})
  {
    hide Decode, ItemCode, Compiled, Good, AllGood, Brackets, BracketCode, AltsSize, AltsOk, ChainOk, AltStarts, ChainEnd,
         HasAt, ItemSize;
    CodeFits(md, pat);
    GroupLayout(md.code, o, item, pat);
    FirstByteOfGroup(md.code, item, o, pat);
    BracketLayout(md.code, o + 1, item.open, item.number, item.alts, item.close, pat);
    ZeroGood(md.code, o, o + ItemSize(item), Brackets(pat, calls), r);
  }

  lemma GroupOffs(item: Item, o: nat)
    requires item.Group?
    ensures var b := o + |ZeroCode(item.zero)|;
            && ItemOffs(item, o) == (if item.zero == NoZero then BracketOffs(item, b) else {o} + BracketOffs(item, b))
            && o in ItemOffs(item, o) && b in BracketOffs(item, b)
  {
    hide AltsOffs, AltsSize;
  }

  ghost function BracketOffs(item: Item, b: nat): set<nat>
    requires item.Group?
  {
    {b, b + AltsSize(OpenerLength(item.open), item.alts)} + AltsOffs(item.alts, b, OpenerLength(item.open))
  }

  lemma {:induction false} BracketGood(md: MatchData, item: Item, b: nat, pat: Alts, calls: set<nat>, r: set<nat>)
    requires Compiled(md, pat) && ItemOk(item, pat) && item.Group? && ItemCalls(item) <= calls
    requires AltsSize(OpenerLength(item.open), item.alts) < 0x10000
    requires HasAt(md.code, b, BracketCode(item.open, item.number, item.alts, item.close, pat))
    requires BracketOffs(item, b) <= r && b + AltsSize(OpenerLength(item.open), item.alts) + 3 in r
    ensures AllGood(md.code, Brackets(pat, calls), r, BracketOffs(item, b))
    decreases item, 0
  {
    hide Decode, Compiled, Good, AllGood, Brackets, BracketCode, AltsCode, AltStarts, AltsSize, AltsOffs, ChainOk,
         HasAt;
    var hdr := OpenerLength(item.open);
    var k := b + AltsSize(hdr, item.alts);
    var all := AltsOffs(item.alts, b, hdr);
    BracketLayout(md.code, b, item.open, item.number, item.alts, item.close, pat);
    AltsGood(md, item.alts, item.open, Imm(item.open, item.number), b, pat, calls, r);
    OpenerGood(md.code, b, Brackets(pat, calls), r);
    KetGood(md.code, k, b, Brackets(pat, calls), r, item.close);
    GoodUnion(md.code, Brackets(pat, calls), r, {b}, {k});
    GoodUnion(md.code, Brackets(pat, calls), r, {b} + {k}, all);
    assert BracketOffs(item, b) == {b} + {k} + all;
  }

  lemma FirstByteOfGroup(code: seq<byte>, item: Item, o: nat, pat: Alts)
    requires ItemOk(item, pat) && item.Group? && item.zero != NoZero
    requires HasAt(code, o, ItemCode(item, pat))
    ensures At(code, o) == ZeroCode(item.zero)[0]
  {
    hide BracketCode;
    HasAtByte(code, o, ItemCode(item, pat), 0);
  }

  lemma OpenerGood(code: seq<byte>, b: nat, callees: set<nat>, r: set<nat>)
    requires IsOpener(At(code, b)) && ChainOk(code, b) && b + 5 <= |code|
    requires Decode(code, b) == Eps([b + OpenerLength(At(code, b))] + AltStarts(code, b))
    requires forall t <- [b + OpenerLength(At(code, b))] + AltStarts(code, b) :: t in r
    ensures AllGood(code, callees, r, {b})
  {
    hide ChainOk, AltStarts, Decode;
  }

  lemma KetGood(code: seq<byte>, k: nat, b: nat, callees: set<nat>, r: set<nat>, close: byte)
    requires At(code, k) == close && OP_KET <= close <= OP_KETRMIN && k + 3 <= |code|
    requires Decode(code, k) == Eps(if close == OP_KET then [k + 3] else [k + 3, b])
    requires k + 3 in r && b in r
    ensures AllGood(code, callees, r, {k})
  {
    hide ChainOk, Decode;
  }

  lemma ZeroGood(code: seq<byte>, o: nat, after: nat, callees: set<nat>, r: set<nat>)
    requires At(code, o) == OP_BRAZERO || At(code, o) == OP_BRAMINZERO || At(code, o) == OP_SKIPZERO
    requires IsOpener(At(code, o + 1)) && ChainOk(code, o + 1)
    requires Decode(code, o) == Eps([o + 1, after]) || Decode(code, o) == Eps([after])
    requires o + 1 in r && after in r
    ensures AllGood(code, callees, r, {o})
  {
    hide Decode, AltStarts;
  }

  /** All instructions of the branches, where `k` is the offset of the closing opcode. */
  lemma {:induction false} AltsGood(md: MatchData, alts: Alts, op: byte, imm: seq<byte>, o: nat, pat: Alts, calls: set<nat>, r: set<nat>)
    requires Compiled(md, pat) && AltsOk(alts, pat) && AltsSize(3 + |imm|, alts) < 0x10000 && AltsCalls(alts) <= calls
    requires HasAt(md.code, o, AltsCode(op, imm, alts, pat))
    requires o + AltsSize(3 + |imm|, alts) < |md.code|
    requires OP_KET <= At(md.code, o + AltsSize(3 + |imm|, alts)) <= OP_KETRMIN
    requires AltsOffs(alts, o, 3 + |imm|) <= r && o + AltsSize(3 + |imm|, alts) in r
    ensures AllGood(md.code, Brackets(pat, calls), r, AltsOffs(alts, o, 3 + |imm|))
    ensures forall t <- [o + 3 + |imm|] + AltStarts(md.code, o) :: t in r
    decreases alts, 0
  {
    hide Decode, Compiled, Good, Brackets, BranchCode, AltsCode, AltStarts, BranchSize, BranchOk, BranchOffs, AllGood,
         ChainOk, HasAt;
    AltsParts(md.code, o, op, imm, alts, pat);
    AltsRest(md.code, o, op, imm, alts, pat);
    var next := o + 3 + |imm| + BranchSize(alts.branch);
    BranchEntry(alts.branch, o + 3 + |imm|);
    BranchGood(md, alts.branch, o + 3 + |imm|, pat, calls, r);
    if alts.Or? {
      RestGood(md, alts.rest, next, pat, calls, r);
      GoodUnion(md.code, Brackets(pat, calls), r, BranchOffs(alts.branch, o + 3 + |imm|),
                {next} + AltsOffs(alts.rest, next, 3));
    } else {
      assert BranchOffs(alts.branch, o + 3 + |imm|) + {} == BranchOffs(alts.branch, o + 3 + |imm|);
    }
  }

  /** The branches after the first, with the ALT in front of them. */
  lemma {:induction false} RestGood(md: MatchData, rest: Alts, o: nat, pat: Alts, calls: set<nat>, r: set<nat>)
    requires Compiled(md, pat) && AltsOk(rest, pat) && AltsSize(3, rest) < 0x10000 && AltsCalls(rest) <= calls
    requires HasAt(md.code, o, AltsCode(OP_ALT, [], rest, pat)) && At(md.code, o) == OP_ALT
    requires o + AltsSize(3, rest) < |md.code|
    requires OP_KET <= At(md.code, o + AltsSize(3, rest)) <= OP_KETRMIN
    requires AltsOffs(rest, o, 3) <= r && o + AltsSize(3, rest) in r
    ensures AllGood(md.code, Brackets(pat, calls), r, {o} + AltsOffs(rest, o, 3))
    ensures forall t <- [o + 3] + AltStarts(md.code, o) :: t in r
    decreases rest, 1
  {
    hide Decode, Compiled, Good, Brackets, AltsCode, AltStarts, AltsSize, AltsOk, AltsOffs, AllGood, ChainOk, ChainEnd;
    AltDecode(md.code, o, rest, pat);
    AltsChain(md.code, o, OP_ALT, [], rest, pat);
    AltsGood(md, rest, OP_ALT, [], o, pat, calls, r);
    AltGood(md.code, o, o + AltsSize(3, rest), Brackets(pat, calls), r);
    GoodUnion(md.code, Brackets(pat, calls), r, {o}, AltsOffs(rest, o, 3));
  }

  lemma AltGood(code: seq<byte>, o: nat, k: nat, callees: set<nat>, r: set<nat>)
    requires At(code, o) == OP_ALT && ChainOk(code, o) && Decode(code, o) == Eps([k]) && k in r
    ensures AllGood(code, callees, r, {o})
  {
    hide Decode, AltStarts;
  }

  lemma {:induction false} BranchGood(md: MatchData, br: Branch, o: nat, pat: Alts, calls: set<nat>, r: set<nat>)
    requires Compiled(md, pat) && BranchOk(br, pat) && BranchCalls(br) <= calls
    requires HasAt(md.code, o, BranchCode(br, pat)) && NoQuantAt(md.code, o + BranchSize(br))
    requires BranchOffs(br, o) <= r && o + BranchSize(br) in r
    ensures AllGood(md.code, Brackets(pat, calls), r, BranchOffs(br, o))
    decreases br
  {
    hide Decode, Compiled, Good, Brackets, BranchCode, ItemCode, ItemOk, ItemSize, ItemOffs;
    if br.Then? {
      TailFollows(md.code, o, br, pat);
      BranchEntry(br.tail, o + ItemSize(br.head));
      ItemGood(md, br.head, o, pat, calls, r);
      BranchGood(md, br.tail, o + ItemSize(br.head), pat, calls, r);
      GoodUnion(md.code, Brackets(pat, calls), r, ItemOffs(br.head, o), BranchOffs(br.tail, o + ItemSize(br.head)));
    }
  }

  // ---------- The compiled pattern ----------

  lemma BodyRegion(md: MatchData, pat: Alts, g: nat, calls: set<nat>) returns (region: set<nat>)
    requires Compiled(md, pat) && Body(pat, g).Found? && AltsCalls(Body(pat, g).alts) <= calls
    ensures Region(md.code, Brackets(pat, calls), Body(pat, g).off, region)
  {
    hide Compiled, Brackets, AltsCode, AltStarts, AltsOk, AltsSize, BracketCode, Body, AltsOffs, InstrOk, ChainOk, Decode,
         HasAt;
    var open, close := BodyCode(md, pat, g);
    var c, alts := Body(pat, g).off, Body(pat, g).alts;
    var imm := Imm(open, g);
    BracketLayout(md.code, c, open, g, alts, close, pat);
    AltsSizeAtLeast(OpenerLength(open), alts);
    var k := c + AltsSize(OpenerLength(open), alts);
    region := AltsOffs(alts, c, OpenerLength(open)) + {k};
    AltsGood(md, alts, open, imm, c, pat, calls, region);
    KetGood(md.code, k, c, Brackets(pat, calls), region + {k + 3, c}, close);
    assert IsCallable(md.code, c);
    assert Targets(md.code, c) == [c + 3 + |imm|] + AltStarts(md.code, c);
    forall o | o in region
      ensures InstrOk(md.code, o) && (Decode(md.code, o).Call? ==> Decode(md.code, o).callpat in Brackets(pat, calls))
      ensures o != k ==> forall t <- Targets(md.code, o) :: t in region
    {
      assert o != k ==> Good(md.code, Brackets(pat, calls), region, o);
    }
  }

  lemma AltsSizeAtLeast(hdr: nat, alts: Alts)
    ensures AltsSize(hdr, alts) >= hdr
  {
  }

  /** The compiled pattern is valid code, with the whole pattern among the brackets that are run. */
  lemma CompiledIsValid(md: MatchData, pat: Alts)
    requires Compiled(md, pat)
    ensures ValidCode(md.code, Callees(pat)) && 0 in Callees(pat)
  {
    hide Compiled, Region, InstrOk;
    assert Body(pat, 0).off == 0;
    var groups := AltsCalls(pat) + {0};
    assert 0 in groups && Body(pat, 0).Found?;
    forall c | c in Callees(pat)
      ensures exists region: set<nat> :: Region(md.code, Callees(pat), c, region)
    {
      var g: nat :| g in groups && Body(pat, g).Found? && Body(pat, g).off == c;
      BodyCalls(pat, g);
      var region := BodyRegion(md, pat, g, groups);
    }
  }

  /** A pattern that calls no group compiles to code whose runs meet no call. */
  lemma CompiledIsCallFree(md: MatchData, pat: Alts)
    requires Compiled(md, pat) && AltsCalls(pat) == {}
    ensures CallFree(md.code, 0)
  {
    hide Compiled, Region, InstrOk;
    var region := BodyRegion(md, pat, 0, {});
    assert Brackets(pat, {}) == {};
  }
}
