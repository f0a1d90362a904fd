/** How the matcher decodes the code of each kind of item, and where the links of brackets lead. */
module PcreLayout {
  import opened Bytes
  import opened PcreCode
  import opened PcrePattern

  /** The byte at p is not a class repeat, so a class that ends at p has no repeat. */
  predicate NoQuantAt(code: seq<byte>, p: nat) {
    p < |code| && !(OP_CRSTAR <= code[p] <= OP_CRPOSRANGE)
  }

  lemma SingleDecode(code: seq<byte>, o: nat, t: CharTest, pat: Alts)
    requires ItemOk(Single(t), pat)
    requires HasAt(code, o, SingleCode(t)) && NoQuantAt(code, o + SingleWidth(t))
    ensures Decode(code, o) == One(t, o + SingleWidth(t))
    ensures Reads(code, o) <= SingleWidth(t) + 1
  {
    var f := SingleCode(t);
    HasAtByte(code, o, f, 0);
    if t.Class? {
      HasAtSplit(code, o, [OP_CLASS], t.bits);
      assert code[o + 1..o + 33] == t.bits;
    } else if |f| > 1 {
      HasAtByte(code, o, f, 1);
    }
  }

  lemma ClassRepeatDecode(code: seq<byte>, o: nat, t: CharTest, q: Quant, pat: Alts)
    requires ItemOk(Repeat(t, q), pat) && t.Class?
    requires HasAt(code, o, RepeatCode(t, q))
    ensures Decode(code, o) == Rep(t, QuantKind(q), o + QuantWidth(t, q))
    ensures Reads(code, o) == QuantWidth(t, q)
  {
    HasAtSplit(code, o, [OP_CLASS] + t.bits, ClassQuant(q));
    HasAtSplit(code, o, [OP_CLASS], t.bits);
    assert At(code, o) == OP_CLASS by { HasAtByte(code, o, [OP_CLASS], 0); }
    assert code[o + 1..o + 33] == t.bits;
    assert code[o + 33] == ClassQuant(q)[0] by { HasAtByte(code, o + 33, ClassQuant(q), 0); }
    if q.Range? {
      ClassBounds(code, o, q);
    }
    assert DecodeClass(code, o) == Rep(t, QuantKind(q), o + QuantWidth(t, q));
  }

  lemma ClassBounds(code: seq<byte>, o: nat, q: Quant)
    requires q.Range? && q.min < 0x10000 && q.max < 0x10000
    requires HasAt(code, o + 33, ClassQuant(q))
    ensures Get(code, o + 34) == q.min && Get(code, o + 36) == q.max
  {
    var op := [if q.lazy then OP_CRMINRANGE else OP_CRRANGE];
    HasAtSplit(code, o + 33, op + Bytes2(q.min), Bytes2(q.max));
    HasAtSplit(code, o + 33, op, Bytes2(q.min));
    Bytes2RoundTrip(code, o + 34, q.min);
    Bytes2RoundTrip(code, o + 36, q.max);
  }

  function Family(t: CharTest): nat {
    match t
    case Literal(_, caseless, negated) => (if negated then 2 else 0) + (if caseless then 1 else 0)
    case _ => 4
  }

  /** The repeat opcodes come in five sets of 13. */
  lemma RepeatOpcode(t: CharTest, q: Quant, pat: Alts)
    requires ItemOk(Repeat(t, q), pat) && !t.Class?
    ensures QuantIndex(q) < REPEATS
    ensures RepeatCode(t, q) == [OP_STAR + REPEATS * Family(t) + QuantIndex(q)] + QuantBytes(q) + [t.d]
    ensures HasBound(QuantIndex(q)) <==> q.Upto? || q.Exact?
  {
  }

  lemma SplitOpcode(family: nat, k: nat)
    requires family < 5 && k < REPEATS
    ensures (OP_STAR + REPEATS * family + k - OP_STAR) / REPEATS == family
    ensures (OP_STAR + REPEATS * family + k - OP_STAR) % REPEATS == k
  {
  }

  lemma RepeatKindAgrees(t: CharTest, q: Quant, pat: Alts)
    requires ItemOk(Repeat(t, q), pat) && !t.Class?
    ensures QuantIndex(q) < REPEATS
    ensures forall n: nat :: (q.Upto? || q.Exact? ==> n == q.n) ==> RepeatKind(QuantIndex(q), n) == QuantKind(q)
  {
  }

  lemma DecodesRepeat(code: seq<byte>, o: nat)
    requires OP_STAR <= At(code, o) < OP_CRSTAR
    ensures Decode(code, o) == DecodeRepeat(code, o)
    ensures Reads(code, o) == if HasBound((At(code, o) - OP_STAR) % REPEATS) then 4 else 2
  {
    hide DecodeRepeat, DecodeBracket, DecodeClass;
  }

  lemma CharRepeatDecode(code: seq<byte>, o: nat, t: CharTest, q: Quant, pat: Alts)
    requires ItemOk(Repeat(t, q), pat) && !t.Class?
    requires HasAt(code, o, RepeatCode(t, q))
    ensures Decode(code, o) == Rep(t, QuantKind(q), o + QuantWidth(t, q))
    ensures Reads(code, o) == QuantWidth(t, q)
  {
    hide Decode, Reads, RepeatCode, QuantIndex, RepeatKind, QuantKind, HasBound;
    RepeatOpcode(t, q, pat);
    var op := OP_STAR + REPEATS * Family(t) + QuantIndex(q);
    HasAtSplit(code, o, [op] + QuantBytes(q), [t.d]);
    HasAtSplit(code, o, [op], QuantBytes(q));
    HasAtByte(code, o, [op], 0);
    HasAtByte(code, o + 1 + |QuantBytes(q)|, [t.d], 0);
    if q.Upto? || q.Exact? {
      Bytes2RoundTrip(code, o + 1, q.n);
    }
    RepeatFromParts(code, o, t, q, pat);
  }

  /** An opcode, its bound and a character. */
  lemma RepeatFromParts(code: seq<byte>, o: nat, t: CharTest, q: Quant, pat: Alts)
    requires ItemOk(Repeat(t, q), pat) && !t.Class?
    requires At(code, o) == OP_STAR + REPEATS * Family(t) + QuantIndex(q)
    requires At(code, o + 1 + |QuantBytes(q)|) == t.d
    requires q.Upto? || q.Exact? ==> Get(code, o + 1) == q.n
    ensures Decode(code, o) == Rep(t, QuantKind(q), o + QuantWidth(t, q))
    ensures Reads(code, o) == QuantWidth(t, q)
  {
    hide Decode, Reads, RepeatCode, QuantIndex, RepeatKind, QuantKind, HasBound, At, Get;
    RepeatOpcode(t, q, pat);
    SplitOpcode(Family(t), QuantIndex(q));
    RepeatKindAgrees(t, q, pat);
    DecodesRepeat(code, o);
  }

  lemma RepeatDecode(code: seq<byte>, o: nat, t: CharTest, q: Quant, pat: Alts)
    requires ItemOk(Repeat(t, q), pat)
    requires HasAt(code, o, RepeatCode(t, q))
    ensures Decode(code, o) == Rep(t, QuantKind(q), o + QuantWidth(t, q))
    ensures Reads(code, o) == QuantWidth(t, q)
  {
    if t.Class? {
      ClassRepeatDecode(code, o, t, q, pat);
    } else {
      CharRepeatDecode(code, o, t, q, pat);
    }
  }

  lemma FirstByte(item: Item, pat: Alts)
    requires ItemOk(item, pat)
    ensures 1 <= |ItemCode(item, pat)| && !(OP_CRSTAR <= ItemCode(item, pat)[0] <= OP_CRPOSRANGE)
    ensures ItemCode(item, pat)[0] != OP_ALT
  {
    var f := ItemCode(item, pat);
    if item.Group? && item.zero == NoZero {
      assert f == BracketCode(item.open, item.number, item.alts, item.close, pat);
    }
  }

  /** The branch's tail starts, or the branch ends, with a byte that is no class repeat. */
  lemma TailFollows(code: seq<byte>, o: nat, b: Branch, pat: Alts)
    requires BranchOk(b, pat) && b.Then?
    requires HasAt(code, o, BranchCode(b, pat)) && NoQuantAt(code, o + BranchSize(b))
    ensures HasAt(code, o, ItemCode(b.head, pat))
    ensures HasAt(code, o + ItemSize(b.head), BranchCode(b.tail, pat))
    ensures NoQuantAt(code, o + ItemSize(b.head))
  {
    hide ItemCode, ItemOk, ItemSize, BranchOk, BranchCode, BranchSize, HasAt;
    BranchUnfold(b, pat);
    HasAtSplit(code, o, ItemCode(b.head, pat), BranchCode(b.tail, pat));
    if b.tail.Then? {
      BranchUnfold(b.tail, pat);
      HasAtSplit(code, o + ItemSize(b.head), ItemCode(b.tail.head, pat), BranchCode(b.tail.tail, pat));
      ItemFollows(code, o + ItemSize(b.head), b.tail.head, pat);
    } else {
      NothingFollows(b.tail);
    }
  }

  lemma BranchUnfold(b: Branch, pat: Alts)
    requires BranchOk(b, pat) && b.Then?
    ensures ItemOk(b.head, pat) && BranchOk(b.tail, pat)
    ensures BranchCode(b, pat) == ItemCode(b.head, pat) + BranchCode(b.tail, pat)
    ensures BranchSize(b) == ItemSize(b.head) + BranchSize(b.tail)
  {
    hide ItemCode, ItemOk, ItemSize;
  }

  lemma NothingFollows(b: Branch)
    requires b.Empty?
    ensures BranchSize(b) == 0
  {
  }

  lemma ItemFollows(code: seq<byte>, o: nat, item: Item, pat: Alts)
    requires ItemOk(item, pat) && HasAt(code, o, ItemCode(item, pat))
    ensures NoQuantAt(code, o)
  {
    hide ItemCode, ItemOk;
    FirstByte(item, pat);
    HasAtByte(code, o, ItemCode(item, pat), 0);
  }

  /** An opcode, a link, a possible group number, and the code of a branch. */
  lemma HeaderParts(code: seq<byte>, o: nat, op: byte, size: nat, imm: seq<byte>, bc: seq<byte>)
    requires HasAt(code, o, [op] + Bytes2(size) + imm + bc) && size < 0x10000
    ensures At(code, o) == op && Get(code, o + 1) == size
    ensures HasAt(code, o + 3, imm) && HasAt(code, o + 3 + |imm|, bc)
  {
    HasAtSplit(code, o, [op] + Bytes2(size) + imm, bc);
    HasAtSplit(code, o, [op] + Bytes2(size), imm);
    HasAtSplit(code, o, [op], Bytes2(size));
    HasAtByte(code, o, [op], 0);
    Bytes2RoundTrip(code, o + 1, size);
  }

  /** The first branch and its link; the remaining branches start with an ALT. */
  lemma AltsParts(code: seq<byte>, o: nat, op: byte, imm: seq<byte>, alts: Alts, pat: Alts)
    requires AltsOk(alts, pat) && AltsSize(3 + |imm|, alts) < 0x10000
    requires HasAt(code, o, AltsCode(op, imm, alts, pat))
    ensures At(code, o) == op
    ensures Get(code, o + 1) == 3 + |imm| + BranchSize(alts.branch)
    ensures HasAt(code, o + 3, imm)
    ensures HasAt(code, o + 3 + |imm|, BranchCode(alts.branch, pat))
    ensures alts.Or? ==> HasAt(code, o + 3 + |imm| + BranchSize(alts.branch), AltsCode(OP_ALT, [], alts.rest, pat))
  {
    hide BranchCode, BranchSize, Decode, Get, At;
    var size := 3 + |imm| + BranchSize(alts.branch);
    var bc := BranchCode(alts.branch, pat);
    var first := [op] + Bytes2(size) + imm + bc;
    if alts.Or? {
      HasAtSplit(code, o, first, AltsCode(OP_ALT, [], alts.rest, pat));
    }
    HeaderParts(code, o, op, size, imm, bc);
  }

  lemma AltsUnfold(hdr: nat, alts: Alts, pat: Alts)
    requires AltsOk(alts, pat)
    ensures BranchOk(alts.branch, pat) && (alts.Or? ==> AltsOk(alts.rest, pat))
    ensures AltsSize(hdr, alts) == hdr + BranchSize(alts.branch) + if alts.Or? then AltsSize(3, alts.rest) else 0
  {
  }

  /** Where the remaining branches start. */
  lemma AltsRest(code: seq<byte>, o: nat, op: byte, imm: seq<byte>, alts: Alts, pat: Alts)
    requires AltsOk(alts, pat) && AltsSize(3 + |imm|, alts) < 0x10000
    requires HasAt(code, o, AltsCode(op, imm, alts, pat))
    requires alts.Last? ==> At(code, o + AltsSize(3 + |imm|, alts)) != OP_ALT
    ensures var n := o + 3 + |imm| + BranchSize(alts.branch);
            if alts.Or? then
              IsAltAt(code, o, n) && At(code, n) == OP_ALT && AltStarts(code, o) == [n + 3] + AltStarts(code, n)
            else AltStarts(code, o) == []
  {
    hide BranchCode, BranchSize, BranchOk, Decode, AltsCode, AltsOk, AltsSize;
    AltsUnfold(3 + |imm|, alts, pat);
    AltsParts(code, o, op, imm, alts, pat);
    var n := o + 3 + |imm| + BranchSize(alts.branch);
    if alts.Or? {
      AltsParts(code, n, OP_ALT, [], alts.rest, pat);
      assert n < |code|;
    }
  }

  /** The links of a bracket lead from branch to branch to the closing opcode. */
  lemma {:induction false} AltsChain(code: seq<byte>, o: nat, op: byte, imm: seq<byte>, alts: Alts, pat: Alts)
    requires AltsOk(alts, pat) && AltsSize(3 + |imm|, alts) < 0x10000
    requires HasAt(code, o, AltsCode(op, imm, alts, pat))
    requires o + AltsSize(3 + |imm|, alts) < |code|
    requires At(code, o + AltsSize(3 + |imm|, alts)) != OP_ALT
    ensures ChainEnd(code, o) == o + AltsSize(3 + |imm|, alts)
    ensures ChainOk(code, o)
    decreases alts
  {
    hide BranchCode, BranchSize, BranchOk, Decode, AltsCode, AltsOk, AltsSize, AltStarts, HasAt;
    AltsUnfold(3 + |imm|, alts, pat);
    AltsParts(code, o, op, imm, alts, pat);
    AltsRest(code, o, op, imm, alts, pat);
    if alts.Or? {
      AltsChain(code, o + 3 + |imm| + BranchSize(alts.branch), OP_ALT, [], alts.rest, pat);
    }
  }

  function Imm(open: byte, number: nat): seq<byte> {
    if OpenerLength(open) == 5 then Bytes2(number) else []
  }

  /** The parts of a bracket: its branches and its closing opcode with a link back. */
  lemma BracketParts(code: seq<byte>, o: nat, open: byte, number: nat, alts: Alts, close: byte, pat: Alts)
    requires AltsOk(alts, pat) && IsOpener(open) && AltsSize(OpenerLength(open), alts) < 0x10000
    requires HasAt(code, o, BracketCode(open, number, alts, close, pat))
    ensures HasAt(code, o, AltsCode(open, Imm(open, number), alts, pat))
    ensures var k := o + AltsSize(OpenerLength(open), alts);
            At(code, k) == close && k + 3 <= |code| && Get(code, k + 1) == k - o
  {
    hide Decode, AltsCode, AltsSize, AltsOk;
    var size := AltsSize(OpenerLength(open), alts);
    var body := AltsCode(open, Imm(open, number), alts, pat);
    assert BracketCode(open, number, alts, close, pat) == body + [close] + Bytes2(size);
    HasAtSplit(code, o, body + [close], Bytes2(size));
    HasAtSplit(code, o, body, [close]);
    HasAtByte(code, o + size, [close], 0);
    Bytes2RoundTrip(code, o + size + 1, size);
  }

  lemma BracketLayout(code: seq<byte>, o: nat, open: byte, number: nat, alts: Alts, close: byte, pat: Alts)
    requires AltsOk(alts, pat) && IsOpener(open) && OP_KET <= close <= OP_KETRMIN && number < 0x10000
    requires AltsSize(OpenerLength(open), alts) < 0x10000
    requires HasAt(code, o, BracketCode(open, number, alts, close, pat))
    ensures HasAt(code, o, AltsCode(open, Imm(open, number), alts, pat))
    ensures At(code, o) == open && ChainOk(code, o)
    ensures OpenerLength(open) == 5 ==> Get(code, o + 3) == number
    ensures Decode(code, o) == Eps([o + OpenerLength(open)] + AltStarts(code, o))
    ensures var k := o + AltsSize(OpenerLength(open), alts);
            && ChainEnd(code, o) == k
            && At(code, k) == close
            && k + 3 <= |code|
            && Get(code, k + 1) == k - o
            && Decode(code, k) == Eps(if close == OP_KET then [k + 3] else [k + 3, o])
  {
    hide AltsCode, AltsOk, AltsSize, BracketCode, ChainOk, AltStarts, ChainEnd;
    var imm := Imm(open, number);
    BracketParts(code, o, open, number, alts, close, pat);
    AltsParts(code, o, open, imm, alts, pat);
    AltsChain(code, o, open, imm, alts, pat);
    if OpenerLength(open) == 5 {
      Bytes2RoundTrip(code, o + 3, number);
    }
  }

  /** A group is its bracket, possibly after an opcode that says it may be skipped. */
  lemma GroupLayout(code: seq<byte>, o: nat, item: Item, pat: Alts)
    requires item.Group? && ItemOk(item, pat) && |code| <= 0x10000
    requires HasAt(code, o, ItemCode(item, pat))
    ensures var b := o + |ZeroCode(item.zero)|;
            && HasAt(code, b, BracketCode(item.open, item.number, item.alts, item.close, pat))
            && AltsSize(OpenerLength(item.open), item.alts) < 0x10000
            && AltsOk(item.alts, pat)
    ensures item.zero == BraZero || item.zero == BraMinZero ==>
              Decode(code, o) == Eps([o + 1, o + ItemSize(item)])
    ensures item.zero == SkipZero ==> Decode(code, o) == Eps([o + ItemSize(item)])
  {
    hide AltsCode, AltsOk, AltsSize, BracketCode, ChainOk, AltStarts, ChainEnd, Decode;
    var bracket := BracketCode(item.open, item.number, item.alts, item.close, pat);
    assert ItemCode(item, pat) == ZeroCode(item.zero) + bracket;
    HasAtSplit(code, o, ZeroCode(item.zero), bracket);
    if item.zero != NoZero {
      ZeroDecode(code, o, item.zero);
      BracketLayout(code, o + 1, item.open, item.number, item.alts, item.close, pat);
    }
  }

  lemma ZeroDecode(code: seq<byte>, o: nat, zero: Zero)
    requires zero != NoZero && HasAt(code, o, ZeroCode(zero))
    ensures Decode(code, o) == Eps((if zero == SkipZero then [] else [o + 1]) + [ChainEnd(code, o + 1) + 3])
  {
    hide ChainEnd, AltStarts, DecodeClass, DecodeRepeat;
    HasAtByte(code, o, ZeroCode(zero), 0);
  }
}
