/** Two patterns with subpattern calls for which what is reported is not what the pattern means. */
module PcreExamples {
  import opened Bytes
  import opened PcreCode
  import opened PcrePattern
  import opened PcreCorrect
  import opened PcreMeaning
  import opened PcreScan
  import opened PcreStep
  import opened PcreDfa
  import opened PcreExec
  import opened PcreSearch

  function Letter(c: byte): Item {
    Single(Literal(c, false, false))
  }

  // ---------- A dropped call ----------

  const BS := Last(Then(Repeat(Literal(98, false, false), Star(Greedy)), Empty))

  /** a(?1)(b*) */
  const CALLED := Last(Then(Letter(97), Then(Recurse(1), Then(Group(OP_CBRA, 1, BS, OP_KET, NoZero), Empty))))

  lemma CalledBody()
    ensures Body(CALLED, 1).Found? && Body(CALLED, 1).alts == BS
  {
    var b := CALLED.branch;
    assert FindInBranch(b.tail.tail, 8, 1) == Found(8, BS);
    assert FindInBranch(b.tail, 5, 1) == Found(8, BS);
  }

  lemma BsMeanNothing(md: MatchData, d: nat)
    requires md.subject == [97]
    ensures SpanAlts(md, CALLED, BS, d, 1, 1)
  {
    assert SpanItem(md, CALLED, BS.branch.head, d, 1, 1) && SpanBranch(md, CALLED, Empty, d, 1, 1);
  }

  lemma MeansA(md: MatchData)
    requires md.subject == [97]
    ensures TreeMatches(md, CALLED, 0, 1)
  {
    hide SpanAlts;
    CalledBody();
    var b := CALLED.branch;
    BsMeanNothing(md, 0);
    BsMeanNothing(md, 1);
    assert SpanItem(md, CALLED, b.tail.tail.head, 1, 1, 1) && SpanBranch(md, CALLED, Empty, 1, 1, 1);
    assert SpanBranch(md, CALLED, b.tail.tail, 1, 1, 1);
    assert SpanItem(md, CALLED, Recurse(1), 1, 1, 1);
    assert SpanBranch(md, CALLED, b.tail, 1, 1, 1);
    assert SpanItem(md, CALLED, Letter(97), 1, 0, 1);
    assert SpanBranch(md, CALLED, b, 1, 0, 1);
    assert SpanAlts(md, CALLED, CALLED, 1, 0, 1) by { BranchIsAlts(md, 1, 0, 1); }
  }

  lemma BranchIsAlts(md: MatchData, d: nat, i: nat, j: nat)
    requires SpanBranch(md, CALLED, CALLED.branch, d, i, j)
    ensures SpanAlts(md, CALLED, CALLED, d, i, j)
  {
    hide SpanBranch;
  }

  lemma Split(md: MatchData, pat: Alts, b: Branch, d: nat, i: nat, j: nat) returns (k: nat)
    requires b.Then? && MatchBranch(md, pat, b, d, i, j)
    ensures MatchItem(md, pat, b.head, d, i, k) && MatchBranch(md, pat, b.tail, d, k, j)
  {
    k :| MatchItem(md, pat, b.head, d, i, k) && MatchBranch(md, pat, b.tail, d, k, j);
  }

  lemma CallIsDropped(md: MatchData, d: nat, k: nat)
    requires md.subject == [97] && md.opts.notEmpty
    ensures !MatchItem(md, CALLED, Recurse(1), d, 1, k)
  {
    hide MatchAlts;
    CalledBody();
    if d > 0 && MatchAlts(md, CALLED, BS, d - 1, 1, k) {
      AltsBounds(md, CALLED, BS, d - 1, 1, k);
    }
  }

  lemma NotMatched(md: MatchData, d: nat, i: nat, j: nat)
    requires md.subject == [97] && md.opts.notEmpty
    ensures !MatchBranch(md, CALLED, CALLED.branch, d, i, j)
  {
    hide MatchBranch;
    if MatchBranch(md, CALLED, CALLED.branch, d, i, j) {
      var k := Split(md, CALLED, CALLED.branch, d, i, j);
      var l := Split(md, CALLED, CALLED.branch.tail, d, k, j);
      CallIsDropped(md, d, l);
    }
  }

  lemma NotReported(md: MatchData, i: nat, j: nat)
    requires md.subject == [97] && md.opts.notEmpty
    ensures !Matches(md, CALLED, i, j)
  {
    if Matches(md, CALLED, i, j) {
      var d: nat :| MatchAlts(md, CALLED, CALLED, d, i, j);
      NotMatched(md, d, i, j);
    }
  }

  /** With PCRE_NOTEMPTY the pattern is not found in "a", though it matches it: the empty match of the group is dropped. */
  lemma DroppedCallExample(md: MatchData, h: Hints)
    requires Compiled(md, CALLED) && md.subject == [97] && md.opts.notEmpty
    ensures TreeMatches(md, CALLED, 0, 1) && Recordable(md, 0, 1) && SearchNone(md, h) && PatternOk(CALLED)
  {
    CalledBody();
    MeansA(md);
    forall i: nat | Candidate(md, h, i)
      ensures !MatchAt(md, i)
    {
      forall j: nat
        ensures !CallMatches(md, 0, i, j)
      {
        NotReported(md, i, j);
        PatternIsCode(md, CALLED, i, j);
      }
    }
  }

  // ---------- A call across a join ----------

  const AB := Last(Then(Letter(97), Then(Letter(98), Empty)))
  const SECOND := Then(Letter(97), Then(Letter(99), Empty))
  const THIRD := Then(Letter(122), Then(Group(OP_CBRA, 1, AB, OP_KET, NoZero), Empty))

  /** (?1)|ac|z(ab) */
  const JOINED := Or(Then(Recurse(1), Empty), Or(SECOND, Last(THIRD)))

  const JOINED_CODE: seq<byte> :=
    [OP_BRA, 0, 6, OP_RECURSE, 0, 18,
     OP_ALT, 0, 7, OP_CHAR, 97, OP_CHAR, 99,
     OP_ALT, 0, 17, OP_CHAR, 122, OP_CBRA, 0, 9, 0, 1, OP_CHAR, 97, OP_CHAR, 98, OP_KET, 0, 9,
     OP_KET, 0, 30, OP_END]

  lemma JoinedBody()
    ensures Body(JOINED, 1) == Found(18, AB)
  {
    assert FindInBranch(THIRD.tail, 18, 1) == Found(18, AB);
    assert FindInBranch(THIRD, 16, 1) == Found(18, AB);
    assert FindInBranch(SECOND, 9, 1) == Missing;
    assert FindInAlts(Last(THIRD), 13, 3, 1) == Found(18, AB);
    assert FindInAlts(JOINED.rest, 6, 3, 1) == Found(18, AB);
  }

  const GROUP_CODE: seq<byte> := [OP_CBRA, 0, 9, 0, 1, OP_CHAR, 97, OP_CHAR, 98, OP_KET, 0, 9]

  /** Two letters, one after the other. */
  lemma TwoLetters(c: byte, e: byte, pat: Alts)
    ensures var b := Then(Letter(c), Then(Letter(e), Empty));
            BranchOk(b, pat) && BranchCode(b, pat) == [OP_CHAR, c, OP_CHAR, e]
  {
    var tail := Then(Letter(e), Empty);
    assert ItemOk(Letter(c), pat) && ItemOk(Letter(e), pat) && BranchOk(tail, pat);
    assert BranchCode(tail, pat) == [OP_CHAR, e] + [] == [OP_CHAR, e];
  }

  lemma GroupCode(pat: Alts)
    ensures var g := Group(OP_CBRA, 1, AB, OP_KET, NoZero); ItemOk(g, pat) && ItemCode(g, pat) == GROUP_CODE
  {
    TwoLetters(97, 98, pat);
    assert AltsCode(OP_CBRA, Bytes2(1), AB, pat) == [OP_CBRA, 0, 9, 0, 1, OP_CHAR, 97, OP_CHAR, 98];
    assert [] + GROUP_CODE == GROUP_CODE;
  }

  lemma ThirdCode(pat: Alts)
    ensures BranchOk(THIRD, pat) && BranchCode(THIRD, pat) == [OP_CHAR, 122] + GROUP_CODE
  {
    GroupCode(pat);
    assert BranchCode(THIRD.tail, pat) == GROUP_CODE + BranchCode(Empty, pat) == GROUP_CODE;
    assert ItemOk(Letter(122), pat) && ItemCode(Letter(122), pat) == [OP_CHAR, 122];
  }

  /** The code of alternatives from the codes of its first branch and of the others. */
  lemma AltsFrom(op: byte, alts: Alts, pat: Alts, bc: seq<byte>)
    requires AltsOk(alts, pat) && BranchCode(alts.branch, pat) == bc && |bc| < 250
    ensures AltsCode(op, [], alts, pat) ==
            [op, 0, 3 + |bc|] + bc + if alts.Last? then [] else AltsCode(OP_ALT, [], alts.rest, pat)
  {
    hide BranchCode, BranchOk, BranchSize;
    assert Bytes2(3 + |bc|) == [0, 3 + |bc|];
  }

  lemma LastCode(pat: Alts)
    ensures AltsOk(JOINED.rest, pat)
    ensures AltsCode(OP_ALT, [], JOINED.rest, pat) ==
            [OP_ALT, 0, 7, OP_CHAR, 97, OP_CHAR, 99, OP_ALT, 0, 17, OP_CHAR, 122] + GROUP_CODE
  {
    hide BranchCode, AltsCode, BranchOk;
    ThirdCode(pat);
    TwoLetters(97, 99, pat);
    AltsFrom(OP_ALT, Last(THIRD), pat, [OP_CHAR, 122] + GROUP_CODE);
    AltsFrom(OP_ALT, JOINED.rest, pat, [OP_CHAR, 97, OP_CHAR, 99]);
  }

  lemma FirstCode(pat: Alts)
    requires Body(pat, 1) == Found(18, AB)
    ensures BranchOk(JOINED.branch, pat) && BranchCode(JOINED.branch, pat) == [OP_RECURSE, 0, 18]
  {
    hide Body;
    assert ItemCode(Recurse(1), pat) == [OP_RECURSE] + Bytes2(18) == [OP_RECURSE, 0, 18];
    assert BranchCode(JOINED.branch, pat) == [OP_RECURSE, 0, 18] + BranchCode(Empty, pat);
  }

  lemma JoinedOk()
    ensures PatternOk(JOINED) && PatternCode(JOINED) == JOINED_CODE
  {
    hide BranchCode, AltsCode, BranchOk, BranchSize, Body, AltsSize;
    var pat := JOINED;
    JoinedBody();
    LastCode(pat);
    FirstCode(pat);
    AltsFrom(OP_BRA, pat, pat, [OP_RECURSE, 0, 18]);
    var parts := [OP_BRA, 0, 6, OP_RECURSE, 0, 18] + AltsCode(OP_ALT, [], pat.rest, pat);
    assert AltsCode(OP_BRA, [], pat, pat) == parts && AltsSize(3, pat) == |parts| == 30;
    assert BracketCode(OP_BRA, 0, pat, OP_KET, pat) == parts + [OP_KET] + Bytes2(30) by {
      hide AltsOk;
    }
    JoinedParts(parts);
  }

  lemma JoinedParts(parts: seq<byte>)
    requires parts == [OP_BRA, 0, 6, OP_RECURSE, 0, 18]
                      + ([OP_ALT, 0, 7, OP_CHAR, 97, OP_CHAR, 99, OP_ALT, 0, 17, OP_CHAR, 122] + GROUP_CODE)
    ensures parts + [OP_KET] + Bytes2(30) + [OP_END] == JOINED_CODE
  {
  }

  /** The states at the branches, and the one behind the letter a of the second. */
  const FIRST := [State(3, 0, 0), State(9, 0, 0), State(16, 0, 0)]
  const LEFT := [State(11, 0, 0)]

  lemma JoinedLinks()
    ensures ChainEnd(JOINED_CODE, 0) == 30 && AltStarts(JOINED_CODE, 0) == [9, 16]
  {
    var code := JOINED_CODE;
    assert |code| == 34 && Get(code, 1) == 6 && code[6] == OP_ALT && Get(code, 7) == 7 && code[13] == OP_ALT;
    assert Get(code, 14) == 17 && code[30] == OP_KET;
    Links(code);
  }

  lemma Links(code: seq<byte>)
    requires |code| == 34 && Get(code, 1) == 6 && code[6] == OP_ALT && Get(code, 7) == 7 && code[13] == OP_ALT
    requires Get(code, 14) == 17 && code[30] == OP_KET
    ensures ChainEnd(code, 0) == 30 && AltStarts(code, 0) == [9, 16]
  {
    hide Get;
    assert ChainEnd(code, 13) == 30 && AltStarts(code, 13) == [];
    assert ChainEnd(code, 6) == 30 && AltStarts(code, 6) == [16] + AltStarts(code, 13) == [16];
    assert AltStarts(code, 0) == [9] + AltStarts(code, 6);
  }

  lemma JoinedBytes()
    ensures var code := JOINED_CODE;
            && At(code, 0) == OP_BRA && At(code, 3) == OP_RECURSE && Get(code, 4) == 18 && Get(code, 21) == 1
            && At(code, 9) == OP_CHAR && At(code, 10) == 97 && At(code, 11) == OP_CHAR && At(code, 12) == 99
            && At(code, 16) == OP_CHAR && At(code, 17) == 122
  {
  }

  lemma JoinedDecodes()
    ensures var code := JOINED_CODE;
            && ChainEnd(code, 0) == 30 && States(Targets(code, 0)) == FIRST
            && Decode(code, 3) == Call(18, 1, 6) && Decode(code, 9) == One(Literal(97, false, false), 11)
            && Decode(code, 11) == One(Literal(99, false, false), 13)
            && Decode(code, 16) == One(Literal(122, false, false), 18)
  {
    JoinedBytes();
    JoinedLinks();
    DecodesFrom(JOINED_CODE);
  }

  lemma DecodesFrom(code: seq<byte>)
    requires At(code, 0) == OP_BRA && At(code, 3) == OP_RECURSE && Get(code, 4) == 18 && Get(code, 21) == 1
    requires At(code, 9) == OP_CHAR && At(code, 10) == 97 && At(code, 11) == OP_CHAR && At(code, 12) == 99
    requires At(code, 16) == OP_CHAR && At(code, 17) == 122 && AltStarts(code, 0) == [9, 16]
    ensures States(Targets(code, 0)) == FIRST
    ensures Decode(code, 3) == Call(18, 1, 6) && Decode(code, 9) == One(Literal(97, false, false), 11)
    ensures Decode(code, 11) == One(Literal(99, false, false), 13)
    ensures Decode(code, 16) == One(Literal(122, false, false), 18)
  {
    hide At, Get, AltStarts;
    assert [3] + AltStarts(code, 0) == [3, 9, 16];
  }

  lemma AbNotMatched(md: MatchData, d: nat, j: nat)
    requires md.subject == [97]
    ensures !MatchAlts(md, JOINED, AB, d, 0, j)
  {
    hide MatchBranch;
    if MatchBranch(md, JOINED, AB.branch, d, 0, j) {
      var k := Split(md, JOINED, AB.branch, d, 0, j);
      var l := Split(md, JOINED, AB.branch.tail, d, k, j);
    }
  }

  lemma CallFindsNothing(md: MatchData, j: nat)
    requires Compiled(md, JOINED) && md.subject == [97]
    ensures !CallMatches(md, 18, 0, j)
  {
    hide Compiled, MatchAlts, Calls, Accepts;
    JoinedBody();
    if CallMatches(md, 18, 0, j) {
      var d: nat :| Calls(md, 18, d, 0, j);
      var n := CallsRun(md, 18, d, 0, j);
      CallSound(md, JOINED, 1, d, 0, j, n);
      AbNotMatched(md, d, j);
    }
  }

  lemma CodeOf(md: MatchData)
    requires Compiled(md, JOINED)
    ensures ChainEnd(md.code, 0) == 30 && States(Targets(md.code, 0)) == FIRST
    ensures Decode(md.code, 3) == Call(18, 1, 6) && Decode(md.code, 9) == One(Literal(97, false, false), 11)
    ensures Decode(md.code, 11) == One(Literal(99, false, false), 13)
    ensures Decode(md.code, 16) == One(Literal(122, false, false), 18)
  {
    hide ChainEnd, Targets, Decode;
    JoinedOk();
    JoinedDecodes();
  }

  /** From the first states on "a", only the second branch goes on: the call finds nothing. */
  lemma EdgesOverA(md: MatchData, b: Config)
    requires Compiled(md, JOINED) && md.subject == [97]
    ensures !AnyEdge(md, 30, Config(0, 3, 0), b) && !AnyEdge(md, 30, Config(0, 16, 0), b)
    ensures AnyEdge(md, 30, Config(0, 9, 0), b) <==> b == Config(1, 11, 0)
  {
    hide Compiled, Decode, CallMatches;
    CodeOf(md);
    CallFindsNothing(md, b.pos);
  }

  lemma PassOverA(md: MatchData)
    requires Compiled(md, JOINED) && md.subject == [97]
    ensures Scanned(md, 30, 0, FIRST, FIRST, LEFT)
  {
    hide Compiled, AnyEdge;
    forall b: Config
      ensures !AnyEdge(md, 30, Config(0, 3, 0), b) && !AnyEdge(md, 30, Config(0, 16, 0), b)
      ensures AnyEdge(md, 30, Config(0, 9, 0), b) <==> b == Config(1, 11, 0)
    {
      EdgesOverA(md, b);
    }
    assert NewEdge(md, 30, 0, FIRST[1], LEFT[0]);
  }

  /** The state behind the letter a goes on with the letter c only. */
  lemma PassFromLeft(md: MatchData, p: nat)
    requires Compiled(md, JOINED) && (p >= |md.subject| || md.subject[p] != 99)
    ensures Scanned(md, 30, p, LEFT, LEFT, []) && !AtGoal(LEFT, 30)
  {
    hide Compiled, Decode, CallMatches;
    CodeOf(md);
    assert forall b: Config :: !AnyEdge(md, 30, Config(p, 11, 0), b);
  }

  /** A run over "b" that resumes that state finds nothing. */
  lemma NothingAfterJoin(md: MatchData)
    requires Compiled(md, JOINED) && md.subject == [98]
    ensures ExactEnds(md, 30, 0, LEFT, [])
  {
    hide Compiled, FrontReaches, Carries, Scanned, AtGoal;
    PassFromLeft(md, 0);
    ExactNone(md, 30, 0, LEFT);
    CarriesFirst(md, 30, 0, LEFT);
    ExactStep(md, 30, 0, LEFT, 0, LEFT, LEFT, [], []);
    ExactAtLast(md, 30, 0, LEFT, 0, LEFT, LEFT, []);
  }

  /** At the end of "a" that state could go on, so the match is partial. */
  lemma CouldGoOn(md: MatchData)
    requires Compiled(md, JOINED) && md.subject == [97]
    ensures CouldContinue(md, 30, 0, FIRST)
  {
    hide Compiled, FrontReaches, Carries, Scanned, Decode;
    PassOverA(md);
    PassFromLeft(md, 1);
    CodeOf(md);
    CarriesFirst(md, 30, 0, FIRST);
    CarriesOn(md, 30, 0, FIRST, 0, FIRST, FIRST, LEFT);
    assert SomeInspects(md.code, LEFT) by {
      assert LEFT[0].wait == 0 && Inspects(md.code, LEFT[0].off);
    }
    CouldContinueAtLast(md, 30, 0, FIRST, 1, LEFT, LEFT);
  }

  lemma JoinedMeansAb(md: MatchData)
    requires md.subject == [97, 98]
    ensures TreeMatches(md, JOINED, 0, 2)
  {
    hide Body;
    JoinedBody();
    var b := AB.branch;
    assert SpanItem(md, JOINED, Letter(98), 0, 1, 2) && SpanBranch(md, JOINED, Empty, 0, 2, 2);
    assert SpanBranch(md, JOINED, b.tail, 0, 1, 2);
    assert SpanItem(md, JOINED, Letter(97), 0, 0, 1);
    assert SpanAlts(md, JOINED, AB, 0, 0, 2);
    assert SpanItem(md, JOINED, Recurse(1), 1, 0, 2) && SpanBranch(md, JOINED, Empty, 1, 2, 2);
    assert SpanAlts(md, JOINED, JOINED, 1, 0, 2);
  }

  /**
   With subpattern calls a restart can lose a match.  The pass over "a" leaves the state behind the letter of the second
   branch, which could go on; the call has found nothing and leaves no state.  Resuming on "b" finds nothing, though the
   pattern matches "ab".
   */
  lemma CallAcrossJoinExample(md: MatchData, next: MatchData, whole: MatchData)
    requires Compiled(md, JOINED) && md.subject == [97]
    requires next == md.(subject := [98], opts := next.opts) && whole == md.(subject := [97, 98])
    ensures ChainEnd(md.code, 0) == 30 && States(Targets(md.code, 0)) == FIRST
    ensures Scanned(md, 30, 0, FIRST, FIRST, LEFT) && CouldContinue(md, 30, 0, FIRST)
    ensures ExactEnds(next, 30, 0, LEFT, []) && TreeMatches(whole, JOINED, 0, 2)
  {
    hide FrontReaches, Scanned, CouldContinue, ExactEnds, TreeMatches;
    CodeOf(md);
    PassOverA(md);
    CouldGoOn(md);
    NothingAfterJoin(next);
    JoinedMeansAb(whole);
  }
}
