/**
 Compiled code means what its tree means.  Every lemma has the same shape: from the start of a
 fragment's code at position i the run reaches the end of its bracket at q exactly if the
 fragment matches some subject[i..j] and the run goes on from behind the fragment, at j, to q.
 */
module PcreCorrect {
  import opened Bytes
  import opened PcreCode
  import opened PcrePattern
  import opened PcreLayout

  ghost predicate Compiled(md: MatchData, pat: Alts) {
    PatternOk(pat) && md.code == PatternCode(pat)
  }

  /** A fragment of `size` bytes at o, outside of which the run stops, and which no class repeat follows. */
  ghost predicate Placed(md: MatchData, o: nat, size: nat, end: nat) {
    NoQuantAt(md.code, o + size) && !(o <= end < o + size)
  }

  ghost predicate Acc(md: MatchData, end: nat, d: nat, a: Config, q: nat) {
    exists n: nat :: Accepts(md, end, d, a, q, n)
  }

  lemma StepBack(md: MatchData, end: nat, d: nat, a: Config, b: Config, q: nat)
    requires Edge(md, end, d, a, b) && Acc(md, end, d, b, q)
    ensures Acc(md, end, d, a, q)
  {
    var n: nat :| Accepts(md, end, d, b, q, n);
    assert Accepts(md, end, d, a, q, n + 1);
  }

  /** The first step of a run from an instruction that looks at no character. */
  lemma EpsStep(md: MatchData, end: nat, d: nat, a: Config, q: nat, n: nat) returns (b: Config)
    requires Decode(md.code, a.off).Eps? && a.off != end && Accepts(md, end, d, a, q, n)
    ensures n > 0 && b.pos == a.pos && b.count == 0 && b.off in Decode(md.code, a.off).targets
    ensures Accepts(md, end, d, Config(a.pos, b.off, 0), q, n - 1)
  {
    b :| Edge(md, end, d, a, b) && Accepts(md, end, d, b, q, n - 1);
  }

  /** The first step of a run from a subpattern call. */
  lemma CallStep(md: MatchData, end: nat, d: nat, a: Config, q: nat, n: nat) returns (j: nat)
    requires Decode(md.code, a.off).Call? && a.off != end && Accepts(md, end, d, a, q, n)
    ensures n > 0 && d > 0 && a.pos <= j <= |md.subject|
    ensures Calls(md, Decode(md.code, a.off).callpat, d - 1, a.pos, j)
    ensures Accepts(md, end, d, Config(j, Decode(md.code, a.off).next, 0), q, n - 1)
  {
    var b: Config :| Edge(md, end, d, a, b) && Accepts(md, end, d, b, q, n - 1);
    j := b.pos;
  }

  // ---------- Repeats ----------

  /** A repeat state with count c at p can only take characters that pass, then leave. */
  lemma {:induction false} RepeatSound(md: MatchData, end: nat, d: nat, o: nat, c: nat, p: nat, q: nat, n: nat)
    returns (j: nat, m: nat)
    requires Decode(md.code, o).Rep? && o != end && p <= |md.subject|
    requires var kind := Decode(md.code, o).kind; RepeatState(kind, c)
    requires Accepts(md, end, d, Config(p, o, c), q, n)
    ensures m < n && p <= j
    ensures var ins := Decode(md.code, o);
            && Repeats(md, ins.test, ins.kind, c, p, j)
            && Accepts(md, end, d, Config(j, ins.next, 0), q, m)
    decreases n
  {
    var ins := Decode(md.code, o);
    var b: Config :| Edge(md, end, d, Config(p, o, c), b) && Accepts(md, end, d, b, q, n - 1);
    var seen := Sees(md, ins.test, p);
    if MayLeave(ins.kind, c, seen) && b == Config(p, ins.next, 0) {
      j, m := p, n - 1;
    } else if seen && Exhausts(ins.kind, c) && b == Config(p + 1, ins.next, 0) {
      j, m := p + 1, n - 1;
    } else {
      j, m := RepeatSound(md, end, d, o, b.count, p + 1, q, n - 1);
    }
  }

  ghost predicate RepeatState(kind: RepKind, c: nat) {
    && (kind.max != 0 ==> c < kind.max && kind.min <= kind.max)
    && (!kind.counted ==> c == 0 && kind.min == 0 && kind.max == 0)
  }

  lemma {:induction false} RepeatComplete(md: MatchData, end: nat, d: nat, o: nat, c: nat, p: nat, j: nat, q: nat)
    requires Decode(md.code, o).Rep? && o != end
    requires var ins := Decode(md.code, o);
             && RepeatState(ins.kind, c)
             && Repeats(md, ins.test, ins.kind, c, p, j)
             && Acc(md, end, d, Config(j, ins.next, 0), q)
    ensures Acc(md, end, d, Config(p, o, c), q)
    decreases j - p
  {
    var ins := Decode(md.code, o);
    var seen := Sees(md, ins.test, p);
    if p == j {
      StepBack(md, end, d, Config(p, o, c), Config(p, ins.next, 0), q);
    } else if Exhausts(ins.kind, c) {
      StepBack(md, end, d, Config(p, o, c), Config(p + 1, ins.next, 0), q);
    } else {
      var c' := if ins.kind.counted then c + 1 else 0;
      RepeatComplete(md, end, d, o, c', p + 1, j, q);
      StepBack(md, end, d, Config(p, o, c), Config(p + 1, o, c'), q);
    }
  }

  // ---------- Calls ----------

  /** Where the bracket of a numbered group lies. */
  lemma {:induction false} FindItemCode(code: seq<byte>, item: Item, o: nat, g: nat, pat: Alts)
    returns (open: byte, close: byte)
    requires ItemOk(item, pat) && HasAt(code, o, ItemCode(item, pat))
    requires FindInItem(item, o, g).Found?
    ensures FoundAt(code, FindInItem(item, o, g), open, g, close, pat) && OpenerLength(open) == 5
    decreases item, 1
  {
    HasAtSplit(code, o, ZeroCode(item.zero), BracketCode(item.open, item.number, item.alts, item.close, pat));
    var b := o + |ZeroCode(item.zero)|;
    if OpenerLength(item.open) == 5 && item.number == g {
      open, close := item.open, item.close;
    } else {
      var imm := Imm(item.open, item.number);
      var body := AltsCode(item.open, imm, item.alts, pat);
      var tail := [item.close] + Bytes2(AltsSize(OpenerLength(item.open), item.alts));
      assert BracketCode(item.open, item.number, item.alts, item.close, pat) == body + tail;
      HasAtSplit(code, b, body, tail);
      open, close := FindAltsCode(code, item.alts, b, item.open, imm, g, pat);
    }
  }

  lemma {:induction false} FindBranchCode(code: seq<byte>, br: Branch, o: nat, g: nat, pat: Alts)
    returns (open: byte, close: byte)
    requires BranchOk(br, pat) && HasAt(code, o, BranchCode(br, pat))
    requires FindInBranch(br, o, g).Found?
    ensures FoundAt(code, FindInBranch(br, o, g), open, g, close, pat) && OpenerLength(open) == 5
    decreases br, 1
  {
    HasAtSplit(code, o, ItemCode(br.head, pat), BranchCode(br.tail, pat));
    if FindInItem(br.head, o, g).Found? {
      open, close := FindItemCode(code, br.head, o, g, pat);
    } else {
      open, close := FindBranchCode(code, br.tail, o + ItemSize(br.head), g, pat);
    }
  }

  lemma {:induction false} FindAltsCode(code: seq<byte>, alts: Alts, o: nat, op: byte, imm: seq<byte>, g: nat, pat: Alts)
    returns (open: byte, close: byte)
    requires AltsOk(alts, pat) && HasAt(code, o, AltsCode(op, imm, alts, pat))
    requires FindInAlts(alts, o, 3 + |imm|, g).Found?
    ensures FoundAt(code, FindInAlts(alts, o, 3 + |imm|, g), open, g, close, pat) && OpenerLength(open) == 5
    decreases alts, 0
  {
    hide BranchCode, BranchSize, BranchOk, HasAt, FoundAt, FindInBranch, Bytes2;
    var size := 3 + |imm| + BranchSize(alts.branch);
    var header := [op] + Bytes2(size) + imm;
    if alts.Or? {
      HasAtSplit(code, o, header + BranchCode(alts.branch, pat), AltsCode(OP_ALT, [], alts.rest, pat));
    }
    HasAtSplit(code, o, header, BranchCode(alts.branch, pat));
    if FindInBranch(alts.branch, o + 3 + |imm|, g).Found? {
      open, close := FindBranchCode(code, alts.branch, o + 3 + |imm|, g, pat);
    } else {
      open, close := FindAltsCode(code, alts.rest, o + size, OP_ALT, [], g, pat);
    }
  }

  /** The bracket found for group g has its code where the search says. */
  ghost predicate FoundAt(code: seq<byte>, f: Found, open: byte, number: nat, close: byte, pat: Alts) {
    && f.Found? && AltsOk(f.alts, pat) && IsOpener(open) && OP_KET <= close <= OP_KETRMIN
    && number < 0x10000
    && HasAt(code, f.off, BracketCode(open, number, f.alts, close, pat))
  }

  lemma BodyCode(md: MatchData, pat: Alts, g: nat) returns (open: byte, close: byte)
    requires Compiled(md, pat) && Body(pat, g).Found?
    ensures FoundAt(md.code, Body(pat, g), open, g, close, pat)
    ensures g == 0 ==> open == OP_BRA && close == OP_KET && Body(pat, g).off == 0
    ensures g != 0 ==> OpenerLength(open) == 5
    ensures Body(pat, g).off < 0x10000 && AltsSize(OpenerLength(open), Body(pat, g).alts) < 0x10000
  {
    var all := BracketCode(OP_BRA, 0, pat, OP_KET, pat);
    assert md.code[0..|all|] == all;
    if g == 0 {
      open, close := OP_BRA, OP_KET;
    } else {
      var body := AltsCode(OP_BRA, [], pat, pat);
      assert all == body + ([OP_KET] + Bytes2(AltsSize(3, pat)));
      HasAtSplit(md.code, 0, body, [OP_KET] + Bytes2(AltsSize(3, pat)));
      open, close := FindAltsCode(md.code, pat, 0, OP_BRA, [], g, pat);
    }
  }

  lemma ItemCodes(item: Item, pat: Alts)
    requires ItemOk(item, pat)
    ensures item.Single? ==> ItemCode(item, pat) == SingleCode(item.test)
    ensures item.Repeat? ==> ItemCode(item, pat) == RepeatCode(item.test, item.quant)
    ensures item.Recurse? ==> ItemCode(item, pat) == [OP_RECURSE] + Bytes2(Body(pat, item.group).off)
  {
  }

  lemma CallDecode(md: MatchData, pat: Alts, g: nat, o: nat)
    requires Compiled(md, pat) && ItemOk(Recurse(g), pat)
    requires HasAt(md.code, o, ItemCode(Recurse(g), pat))
    ensures Decode(md.code, o).Call?
    ensures Decode(md.code, o).callpat == Body(pat, g).off && Decode(md.code, o).next == o + 3
  {
    hide Body, PatternOk, PatternCode, HasAt, Get, FoundAt, AltsSize;
    var open, close := BodyCode(md, pat, g);
    assert ItemCode(Recurse(g), pat) == [OP_RECURSE] + Bytes2(Body(pat, g).off);
    HasAtSplit(md.code, o, [OP_RECURSE], Bytes2(Body(pat, g).off));
    HasAtByte(md.code, o, [OP_RECURSE], 0);
    Bytes2RoundTrip(md.code, o + 1, Body(pat, g).off);
  }

  // ---------- Soundness ----------

  /** The first step of a run from an instruction that takes one character. */
  lemma OneStep(md: MatchData, end: nat, d: nat, a: Config, q: nat, n: nat)
    requires Decode(md.code, a.off).One? && a.off != end && Accepts(md, end, d, a, q, n)
    ensures n > 0 && Sees(md, Decode(md.code, a.off).test, a.pos)
    ensures Accepts(md, end, d, Config(a.pos + 1, Decode(md.code, a.off).next, 0), q, n - 1)
  {
    var b: Config :| Edge(md, end, d, a, b) && Accepts(md, end, d, b, q, n - 1);
  }

  lemma CodeFits(md: MatchData, pat: Alts)
    requires Compiled(md, pat)
    ensures |md.code| <= 0x10000
  {
  }

  lemma {:induction false} ItemSound(md: MatchData, pat: Alts, item: Item, end: nat, d: nat, o: nat,
                                     i: nat, q: nat, n: nat)
    returns (j: nat, m: nat)
    requires Compiled(md, pat) && ItemOk(item, pat)
    requires HasAt(md.code, o, ItemCode(item, pat)) && Placed(md, o, ItemSize(item), end)
    requires i <= |md.subject| && Accepts(md, end, d, Config(i, o, 0), q, n)
    ensures m < n && i <= j <= |md.subject|
    ensures MatchItem(md, pat, item, d, i, j)
    ensures Accepts(md, end, d, Config(j, o + ItemSize(item), 0), q, m)
    decreases d, n, item, 2
  {
    hide Decode, ItemCode, Compiled, Accepts, Repeats, MatchItem, Sees, AltsSize, AltsOk, TestOk;
    if item.Group? {
      j, m := GroupSound(md, pat, item, end, d, o, i, q, n);
    } else if item.Recurse? {
      j, m := CallItemSound(md, pat, item, end, d, o, i, q, n);
    } else {
      j, m := TestItemSound(md, pat, item, end, d, o, i, q, n);
    }
  }

  lemma TestItemSound(md: MatchData, pat: Alts, item: Item, end: nat, d: nat, o: nat, i: nat, q: nat, n: nat)
    returns (j: nat, m: nat)
    requires ItemOk(item, pat) && (item.Single? || item.Repeat?)
    requires HasAt(md.code, o, ItemCode(item, pat)) && Placed(md, o, ItemSize(item), end)
    requires i <= |md.subject| && Accepts(md, end, d, Config(i, o, 0), q, n)
    ensures m < n && i <= j <= |md.subject|
    ensures MatchItem(md, pat, item, d, i, j)
    ensures Accepts(md, end, d, Config(j, o + ItemSize(item), 0), q, m)
  {
    hide Decode, ItemCode, Accepts;
    ItemCodes(item, pat);
    if item.Single? {
      SingleDecode(md.code, o, item.test, pat);
      OneStep(md, end, d, Config(i, o, 0), q, n);
      j, m := i + 1, n - 1;
    } else {
      RepeatDecode(md.code, o, item.test, item.quant, pat);
      j, m := RepeatSound(md, end, d, o, 0, i, q, n);
    }
  }

  lemma {:induction false} CallItemSound(md: MatchData, pat: Alts, item: Item, end: nat, d: nat, o: nat,
                                         i: nat, q: nat, n: nat)
    returns (j: nat, m: nat)
    requires Compiled(md, pat) && ItemOk(item, pat) && item.Recurse?
    requires HasAt(md.code, o, ItemCode(item, pat)) && Placed(md, o, ItemSize(item), end)
    requires i <= |md.subject| && Accepts(md, end, d, Config(i, o, 0), q, n)
    ensures m < n && i <= j <= |md.subject|
    ensures MatchItem(md, pat, item, d, i, j)
    ensures Accepts(md, end, d, Config(j, o + ItemSize(item), 0), q, m)
    decreases d, n, item, 1
  {
    hide Decode, ItemCode, Compiled, Accepts, Body, MatchAlts, AltsOk, AltsSize;
    var body := Body(pat, item.group);
    CallDecode(md, pat, item.group, o);
    j := CallStep(md, end, d, Config(i, o, 0), q, n);
    m := n - 1;
    var k := CallsRun(md, body.off, d - 1, i, j);
    CallSound(md, pat, item.group, d - 1, i, j, k);
  }

  lemma {:induction false} GroupSound(md: MatchData, pat: Alts, item: Item, end: nat, d: nat, o: nat,
                                      i: nat, q: nat, n: nat)
    returns (j: nat, m: nat)
    requires Compiled(md, pat) && ItemOk(item, pat) && item.Group?
    requires HasAt(md.code, o, ItemCode(item, pat)) && Placed(md, o, ItemSize(item), end)
    requires i <= |md.subject| && Accepts(md, end, d, Config(i, o, 0), q, n)
    ensures m < n && i <= j <= |md.subject|
    ensures MatchItem(md, pat, item, d, i, j)
    ensures Accepts(md, end, d, Config(j, o + ItemSize(item), 0), q, m)
    decreases d, n, item, 1
  {
    hide Decode, ItemCode, Compiled, Accepts, AltsSize, AltsOk, BracketCode;
    CodeFits(md, pat);
    GroupLayout(md.code, o, item, pat);
    var times: nat := 0;
    if item.zero == NoZero {
      j, m, times := BracketSound(md, pat, item, end, d, o, i, q, n);
    } else {
      var b := EpsStep(md, end, d, Config(i, o, 0), q, n);
      if b.off == o + 1 {
        j, m, times := BracketSound(md, pat, item, end, d, o + 1, i, q, n - 1);
      } else {
        j, m := i, n - 1;
      }
    }
  }

  /** From a bracket's opener: one match of the alternatives, or several if the bracket loops. */
  lemma {:induction false} BracketSound(md: MatchData, pat: Alts, item: Item, end: nat, d: nat, o: nat,
                                        i: nat, q: nat, n: nat)
    returns (j: nat, m: nat, times: nat)
    requires Compiled(md, pat) && item.Group? && ItemOk(item, pat)
    requires AltsSize(OpenerLength(item.open), item.alts) < 0x10000
    requires HasAt(md.code, o, BracketCode(item.open, item.number, item.alts, item.close, pat))
    requires !(o <= end < o + AltsSize(OpenerLength(item.open), item.alts) + 3)
    requires i <= |md.subject| && Accepts(md, end, d, Config(i, o, 0), q, n)
    ensures m < n && i <= j <= |md.subject|
    ensures if item.close == OP_KET then MatchAlts(md, pat, item.alts, d, i, j)
            else MatchTimes(md, pat, item.alts, d, i, j, times)
    ensures Accepts(md, end, d, Config(j, o + AltsSize(OpenerLength(item.open), item.alts) + 3, 0), q, m)
    decreases d, n, item, 0
  {
    hide Decode, Compiled, Accepts, AltsSize, AltsOk, BracketCode, AltsCode, AltStarts, MatchAlts;
    var hdr := OpenerLength(item.open);
    BracketLayout(md.code, o, item.open, item.number, item.alts, item.close, pat);
    var ket := o + AltsSize(hdr, item.alts);
    var b := EpsStep(md, end, d, Config(i, o, 0), q, n);
    var k, l := AltsSound(md, pat, item.alts, item.open, Imm(item.open, item.number), end, d, o, b.off, i, q, n - 1);
    var e := EpsStep(md, end, d, Config(k, ket, 0), q, l);
    if e.off == ket + 3 {
      j, m, times := k, l - 1, 0;
    } else {
      var rest;
      j, m, rest := BracketSound(md, pat, item, end, d, o, k, q, l - 1);
      times := rest + 1;
    }
  }

  /** From the start of one of the branches to the closing opcode. */
  lemma {:induction false} AltsSound(md: MatchData, pat: Alts, alts: Alts, op: byte, imm: seq<byte>, end: nat, d: nat,
                                     o: nat, st: nat, i: nat, q: nat, n: nat)
    returns (j: nat, m: nat)
    requires Compiled(md, pat) && AltsOk(alts, pat) && AltsSize(3 + |imm|, alts) < 0x10000
    requires HasAt(md.code, o, AltsCode(op, imm, alts, pat))
    requires o + AltsSize(3 + |imm|, alts) < |md.code|
    requires OP_KET <= At(md.code, o + AltsSize(3 + |imm|, alts)) <= OP_KETRMIN
    requires !(o <= end < o + AltsSize(3 + |imm|, alts))
    requires st in [o + 3 + |imm|] + AltStarts(md.code, o)
    requires i <= |md.subject| && Accepts(md, end, d, Config(i, st, 0), q, n)
    ensures m <= n && i <= j <= |md.subject|
    ensures MatchAlts(md, pat, alts, d, i, j)
    ensures Accepts(md, end, d, Config(j, o + AltsSize(3 + |imm|, alts), 0), q, m)
    decreases d, n, alts, 0
  {
    hide Decode, Compiled, Accepts, AltsCode, AltStarts, BranchCode, BranchSize, BranchOk, MatchBranch, AltsOk, AltsSize,
         HasAt;
    AltsUnfold(3 + |imm|, alts, pat);
    AltsParts(md.code, o, op, imm, alts, pat);
    AltsRest(md.code, o, op, imm, alts, pat);
    var next := o + 3 + |imm| + BranchSize(alts.branch);
    if st == o + 3 + |imm| {
      j, m := BranchSound(md, pat, alts.branch, end, d, st, i, q, n);
      if alts.Or? {
        AltDecode(md.code, next, alts.rest, pat);
        var b := EpsStep(md, end, d, Config(j, next, 0), q, m);
        m := m - 1;
      }
    } else {
      j, m := AltsSound(md, pat, alts.rest, OP_ALT, [], end, d, next, st, i, q, n);
    }
  }

  lemma AltDecode(code: seq<byte>, o: nat, alts: Alts, pat: Alts)
    requires AltsOk(alts, pat) && AltsSize(3, alts) < 0x10000
    requires HasAt(code, o, AltsCode(OP_ALT, [], alts, pat))
    requires o + AltsSize(3, alts) < |code| && At(code, o + AltsSize(3, alts)) != OP_ALT
    ensures Decode(code, o) == Eps([o + AltsSize(3, alts)])
  {
    hide AltsCode, AltsOk, AltsSize;
    AltsParts(code, o, OP_ALT, [], alts, pat);
    AltsChain(code, o, OP_ALT, [], alts, pat);
  }

  lemma {:induction false} BranchSound(md: MatchData, pat: Alts, br: Branch, end: nat, d: nat, o: nat,
                                       i: nat, q: nat, n: nat)
    returns (j: nat, m: nat)
    requires Compiled(md, pat) && BranchOk(br, pat)
    requires HasAt(md.code, o, BranchCode(br, pat)) && Placed(md, o, BranchSize(br), end)
    requires i <= |md.subject| && Accepts(md, end, d, Config(i, o, 0), q, n)
    ensures m <= n && i <= j <= |md.subject|
    ensures MatchBranch(md, pat, br, d, i, j)
    ensures Accepts(md, end, d, Config(j, o + BranchSize(br), 0), q, m)
    decreases d, n, br, 0
  {
    hide Decode, Compiled, Accepts, BranchCode, ItemCode, ItemOk, ItemSize, MatchItem;
    if br.Empty? {
      j, m := i, n;
    } else {
      TailFollows(md.code, o, br, pat);
      var k, l := ItemSound(md, pat, br.head, end, d, o, i, q, n);
      j, m := BranchSound(md, pat, br.tail, end, d, o + ItemSize(br.head), k, q, l);
    }
  }

  /** A called bracket, run on its own, ends only where its alternatives match. */
  lemma {:induction false} CallSound(md: MatchData, pat: Alts, g: nat, d: nat, i: nat, j: nat, n: nat)
    requires Compiled(md, pat) && Body(pat, g).Found? && i <= |md.subject|
    requires Accepts(md, ChainEnd(md.code, Body(pat, g).off), d, Config(i, Body(pat, g).off, 0), j, n)
    ensures MatchAlts(md, pat, Body(pat, g).alts, d, i, j) && i <= j <= |md.subject|
    decreases d, n, Body(pat, g).alts, 3
  {
    hide Decode, Compiled, AltsCode, AltStarts, AltsOk, AltsSize, BracketCode, Body, MatchAlts, ChainEnd, ChainOk, HasAt;
    var open, close := BodyCode(md, pat, g);
    var o, alts := Body(pat, g).off, Body(pat, g).alts;
    BracketLayout(md.code, o, open, g, alts, close, pat);
    var ket := ChainEnd(md.code, o);
    var b := EpsStep(md, ket, d, Config(i, o, 0), j, n);
    var k, l := AltsSound(md, pat, alts, open, Imm(open, g), ket, d, o, b.off, i, j, n - 1);
    EndsHere(md, ket, d, Config(k, ket, 0), j, l);
  }

  /** A run that is at the end of its bracket is over. */
  lemma EndsHere(md: MatchData, end: nat, d: nat, a: Config, q: nat, n: nat)
    requires a.off == end && Accepts(md, end, d, a, q, n)
    ensures a.pos == q
  {
  }

  // ---------- Completeness ----------

  lemma {:induction false} ItemBounds(md: MatchData, pat: Alts, item: Item, d: nat, i: nat, j: nat)
    requires MatchItem(md, pat, item, d, i, j) && i <= |md.subject|
    ensures i <= j <= |md.subject|
    decreases d, item, 2
  {
    match item
    case Single(_) =>
    case Repeat(_, _) =>
    case Recurse(g) => AltsBounds(md, pat, Body(pat, g).alts, d - 1, i, j);
    case Group(_, _, alts, close, zero) =>
      if !(zero != NoZero && i == j) {
        if close == OP_KET {
          AltsBounds(md, pat, alts, d, i, j);
        } else {
          var n: nat :| MatchTimes(md, pat, alts, d, i, j, n);
          TimesBounds(md, pat, alts, d, i, j, n);
        }
      }
  }

  lemma {:induction false} TimesBounds(md: MatchData, pat: Alts, alts: Alts, d: nat, i: nat, j: nat, n: nat)
    requires MatchTimes(md, pat, alts, d, i, j, n) && i <= |md.subject|
    ensures i <= j <= |md.subject|
    decreases d, alts, 2, n
  {
    if n == 0 {
      AltsBounds(md, pat, alts, d, i, j);
    } else {
      var k: nat :| MatchAlts(md, pat, alts, d, i, k) && MatchTimes(md, pat, alts, d, k, j, n - 1);
      AltsBounds(md, pat, alts, d, i, k);
      TimesBounds(md, pat, alts, d, k, j, n - 1);
    }
  }

  lemma {:induction false} AltsBounds(md: MatchData, pat: Alts, alts: Alts, d: nat, i: nat, j: nat)
    requires MatchAlts(md, pat, alts, d, i, j) && i <= |md.subject|
    ensures i <= j <= |md.subject|
    decreases d, alts, 1
  {
    if MatchBranch(md, pat, alts.branch, d, i, j) {
      BranchBounds(md, pat, alts.branch, d, i, j);
    } else {
      AltsBounds(md, pat, alts.rest, d, i, j);
    }
  }

  lemma {:induction false} BranchBounds(md: MatchData, pat: Alts, br: Branch, d: nat, i: nat, j: nat)
    requires MatchBranch(md, pat, br, d, i, j) && i <= |md.subject|
    ensures i <= j <= |md.subject|
    decreases d, br, 1
  {
    if br.Then? {
      var k: nat :| MatchItem(md, pat, br.head, d, i, k) && MatchBranch(md, pat, br.tail, d, k, j);
      ItemBounds(md, pat, br.head, d, i, k);
      BranchBounds(md, pat, br.tail, d, k, j);
    }
  }

  lemma EpsBack(md: MatchData, end: nat, d: nat, p: nat, o: nat, t: nat, q: nat)
    requires Decode(md.code, o).Eps? && o != end && t in Decode(md.code, o).targets
    requires Acc(md, end, d, Config(p, t, 0), q)
    ensures Acc(md, end, d, Config(p, o, 0), q)
  {
    StepBack(md, end, d, Config(p, o, 0), Config(p, t, 0), q);
  }

  lemma {:induction false} ItemComplete(md: MatchData, pat: Alts, item: Item, end: nat, d: nat, o: nat,
                                        i: nat, j: nat, q: nat)
    requires Compiled(md, pat) && ItemOk(item, pat)
    requires HasAt(md.code, o, ItemCode(item, pat)) && Placed(md, o, ItemSize(item), end)
    requires i <= |md.subject| && MatchItem(md, pat, item, d, i, j)
    requires Acc(md, end, d, Config(j, o + ItemSize(item), 0), q)
    ensures Acc(md, end, d, Config(i, o, 0), q)
    decreases d, item, 3
  {
    hide Decode, ItemCode, Compiled, Acc, Repeats, MatchItem, Sees, AltsSize, AltsOk, TestOk;
    if item.Group? {
      GroupComplete(md, pat, item, end, d, o, i, j, q);
    } else if item.Recurse? {
      CallItemComplete(md, pat, item, end, d, o, i, j, q);
    } else {
      TestItemComplete(md, pat, item, end, d, o, i, j, q);
    }
  }

  lemma TestItemComplete(md: MatchData, pat: Alts, item: Item, end: nat, d: nat, o: nat, i: nat, j: nat, q: nat)
    requires ItemOk(item, pat) && (item.Single? || item.Repeat?)
    requires HasAt(md.code, o, ItemCode(item, pat)) && Placed(md, o, ItemSize(item), end)
    requires MatchItem(md, pat, item, d, i, j)
    requires Acc(md, end, d, Config(j, o + ItemSize(item), 0), q)
    ensures Acc(md, end, d, Config(i, o, 0), q)
  {
    hide Decode, ItemCode, Accepts, Acc;
    ItemCodes(item, pat);
    if item.Single? {
      SingleDecode(md.code, o, item.test, pat);
      StepBack(md, end, d, Config(i, o, 0), Config(j, o + ItemSize(item), 0), q);
    } else {
      RepeatDecode(md.code, o, item.test, item.quant, pat);
      RepeatComplete(md, end, d, o, 0, i, j, q);
    }
  }

  lemma {:induction false} CallItemComplete(md: MatchData, pat: Alts, item: Item, end: nat, d: nat, o: nat,
                                            i: nat, j: nat, q: nat)
    requires Compiled(md, pat) && ItemOk(item, pat) && item.Recurse?
    requires HasAt(md.code, o, ItemCode(item, pat)) && Placed(md, o, ItemSize(item), end)
    requires i <= |md.subject| && MatchItem(md, pat, item, d, i, j)
    requires Acc(md, end, d, Config(j, o + ItemSize(item), 0), q)
    ensures Acc(md, end, d, Config(i, o, 0), q)
    decreases d, item, 2
  {
    hide Decode, ItemCode, Compiled, Accepts, Body, MatchAlts, AltsOk, AltsSize;
    var body := Body(pat, item.group);
    CallDecode(md, pat, item.group, o);
    AltsBounds(md, pat, body.alts, d - 1, i, j);
    CallComplete(md, pat, item.group, d - 1, i, j);
    assert Calls(md, body.off, d - 1, i, j);
    StepBack(md, end, d, Config(i, o, 0), Config(j, o + 3, 0), q);
  }

  lemma {:induction false} GroupComplete(md: MatchData, pat: Alts, item: Item, end: nat, d: nat, o: nat,
                                         i: nat, j: nat, q: nat)
    requires Compiled(md, pat) && ItemOk(item, pat) && item.Group?
    requires HasAt(md.code, o, ItemCode(item, pat)) && Placed(md, o, ItemSize(item), end)
    requires i <= |md.subject| && MatchItem(md, pat, item, d, i, j)
    requires Acc(md, end, d, Config(j, o + ItemSize(item), 0), q)
    ensures Acc(md, end, d, Config(i, o, 0), q)
    decreases d, item, 2
  {
    hide Decode, ItemCode, Compiled, Acc, AltsSize, AltsOk, BracketCode, MatchAlts, MatchTimes;
    CodeFits(md, pat);
    GroupLayout(md.code, o, item, pat);
    if item.zero != NoZero && i == j {
      EpsBack(md, end, d, i, o, o + ItemSize(item), q);
    } else {
      var b := o + |ZeroCode(item.zero)|;
      var times: nat := 0;
      if item.close != OP_KET {
        times :| MatchTimes(md, pat, item.alts, d, i, j, times);
      }
      BracketComplete(md, pat, item, end, d, b, i, j, q, times);
      if item.zero != NoZero {
        EpsBack(md, end, d, i, o, o + 1, q);
      }
    }
  }

  lemma {:induction false} BracketComplete(md: MatchData, pat: Alts, item: Item, end: nat, d: nat, o: nat,
                                           i: nat, j: nat, q: nat, times: nat)
    requires Compiled(md, pat) && item.Group? && ItemOk(item, pat)
    requires AltsSize(OpenerLength(item.open), item.alts) < 0x10000
    requires HasAt(md.code, o, BracketCode(item.open, item.number, item.alts, item.close, pat))
    requires !(o <= end < o + AltsSize(OpenerLength(item.open), item.alts) + 3)
    requires i <= |md.subject|
    requires if item.close == OP_KET then MatchAlts(md, pat, item.alts, d, i, j)
             else MatchTimes(md, pat, item.alts, d, i, j, times)
    requires Acc(md, end, d, Config(j, o + AltsSize(OpenerLength(item.open), item.alts) + 3, 0), q)
    ensures Acc(md, end, d, Config(i, o, 0), q)
    decreases d, item, 1, times
  {
    hide Decode, Compiled, Acc, AltsSize, AltsOk, BracketCode, AltsCode, AltStarts, MatchAlts, HasAt, ChainOk, ChainEnd;
    BracketLayout(md.code, o, item.open, item.number, item.alts, item.close, pat);
    var ket := o + AltsSize(OpenerLength(item.open), item.alts);
    var k := j;
    if item.close == OP_KET || times == 0 {
      EpsBack(md, end, d, j, ket, ket + 3, q);
    } else {
      k :| MatchAlts(md, pat, item.alts, d, i, k) && MatchTimes(md, pat, item.alts, d, k, j, times - 1);
      AltsBounds(md, pat, item.alts, d, i, k);
      BracketComplete(md, pat, item, end, d, o, k, j, q, times - 1);
      EpsBack(md, end, d, k, ket, o, q);
    }
    var st := AltsComplete(md, pat, item.alts, item.open, Imm(item.open, item.number), end, d, o, i, k, q);
    EpsBack(md, end, d, i, o, st, q);
  }

  lemma {:induction false} AltsComplete(md: MatchData, pat: Alts, alts: Alts, op: byte, imm: seq<byte>, end: nat,
                                        d: nat, o: nat, i: nat, j: nat, q: nat)
    returns (st: nat)
    requires Compiled(md, pat) && AltsOk(alts, pat) && AltsSize(3 + |imm|, alts) < 0x10000
    requires HasAt(md.code, o, AltsCode(op, imm, alts, pat))
    requires o + AltsSize(3 + |imm|, alts) < |md.code|
    requires OP_KET <= At(md.code, o + AltsSize(3 + |imm|, alts)) <= OP_KETRMIN
    requires !(o <= end < o + AltsSize(3 + |imm|, alts))
    requires i <= |md.subject| && MatchAlts(md, pat, alts, d, i, j)
    requires Acc(md, end, d, Config(j, o + AltsSize(3 + |imm|, alts), 0), q)
    ensures st in [o + 3 + |imm|] + AltStarts(md.code, o)
    ensures Acc(md, end, d, Config(i, st, 0), q)
    decreases d, alts, 0
  {
    hide Decode, Compiled, Acc, AltsCode, AltStarts, BranchCode, BranchSize, BranchOk, MatchBranch, AltsOk, AltsSize,
         HasAt;
    AltsUnfold(3 + |imm|, alts, pat);
    AltsParts(md.code, o, op, imm, alts, pat);
    AltsRest(md.code, o, op, imm, alts, pat);
    var next := o + 3 + |imm| + BranchSize(alts.branch);
    if MatchBranch(md, pat, alts.branch, d, i, j) {
      st := o + 3 + |imm|;
      if alts.Or? {
        AltDecode(md.code, next, alts.rest, pat);
        EpsBack(md, end, d, j, next, next + AltsSize(3, alts.rest), q);
      }
      BranchComplete(md, pat, alts.branch, end, d, st, i, j, q);
    } else {
      st := AltsComplete(md, pat, alts.rest, OP_ALT, [], end, d, next, i, j, q);
    }
  }

  lemma {:induction false} BranchComplete(md: MatchData, pat: Alts, br: Branch, end: nat, d: nat, o: nat,
                                          i: nat, j: nat, q: nat)
    requires Compiled(md, pat) && BranchOk(br, pat)
    requires HasAt(md.code, o, BranchCode(br, pat)) && Placed(md, o, BranchSize(br), end)
    requires i <= |md.subject| && MatchBranch(md, pat, br, d, i, j)
    requires Acc(md, end, d, Config(j, o + BranchSize(br), 0), q)
    ensures Acc(md, end, d, Config(i, o, 0), q)
    decreases d, br, 0
  {
    hide Decode, Compiled, Acc, BranchCode, ItemCode, ItemOk, ItemSize, MatchItem;
    if br.Then? {
      TailFollows(md.code, o, br, pat);
      var k: nat :| MatchItem(md, pat, br.head, d, i, k) && MatchBranch(md, pat, br.tail, d, k, j);
      ItemBounds(md, pat, br.head, d, i, k);
      BranchComplete(md, pat, br.tail, end, d, o + ItemSize(br.head), k, j, q);
      ItemComplete(md, pat, br.head, end, d, o, i, k, q);
    }
  }

  lemma {:induction false} CallComplete(md: MatchData, pat: Alts, g: nat, d: nat, i: nat, j: nat)
    requires Compiled(md, pat) && Body(pat, g).Found? && i <= |md.subject|
    requires MatchAlts(md, pat, Body(pat, g).alts, d, i, j)
    ensures Acc(md, ChainEnd(md.code, Body(pat, g).off), d, Config(i, Body(pat, g).off, 0), j)
    decreases d, Body(pat, g).alts, 4
  {
    hide Decode, Compiled, AltsCode, AltStarts, AltsOk, AltsSize, BracketCode, Body, MatchAlts, ChainEnd, ChainOk, HasAt;
    var open, close := BodyCode(md, pat, g);
    var o, alts := Body(pat, g).off, Body(pat, g).alts;
    BracketLayout(md.code, o, open, g, alts, close, pat);
    var ket := ChainEnd(md.code, o);
    assert Accepts(md, ket, d, Config(j, ket, 0), j, 0);
    var st := AltsComplete(md, pat, alts, open, Imm(open, g), ket, d, o, i, j, j);
    EpsBack(md, ket, d, i, o, st, j);
  }

  // ---------- The compiled pattern ----------

  /** The matcher's states reach the end of the compiled pattern exactly where the pattern matches. */
  lemma PatternIsCode(md: MatchData, pat: Alts, i: nat, j: nat)
    requires Compiled(md, pat) && i <= |md.subject|
    ensures Matches(md, pat, i, j) <==> CallMatches(md, 0, i, j)
    ensures Matches(md, pat, i, j) ==> i <= j <= |md.subject|
  {
    hide Decode, Compiled, MatchAlts, Accepts;
    if Matches(md, pat, i, j) {
      var d: nat :| MatchAlts(md, pat, pat, d, i, j);
      AltsBounds(md, pat, pat, d, i, j);
      CallComplete(md, pat, 0, d, i, j);
      assert Calls(md, 0, d, i, j);
    }
    if CallMatches(md, 0, i, j) {
      var d: nat :| Calls(md, 0, d, i, j);
      var n := CallsRun(md, 0, d, i, j);
      CallSound(md, pat, 0, d, i, j, n);
    }
  }
}
