/**
 The main results on the DFA matcher: a search of a compiled pattern reports exactly what the
 pattern's tree matches, the start-of-match optimisations change nothing, and matching a subject in
 pieces gives what matching it whole gives.
 */
module PcreTheorems {
  import opened Bytes
  import opened PcreCode
  import opened PcrePattern
  import opened PcreCorrect
  import opened PcreMeaning
  import opened PcreLanguage
  import opened PcreValid
  import opened PcreScan
  import opened PcreVectors
  import opened PcreStep
  import opened PcreDfa
  import opened PcreRoom
  import opened PcreExec
  import opened PcreSearch

  // ---------- The search reports what the tree matches ----------

  /** The reported matches are all matches of the tree at the first candidate that has any. */
  lemma SearchIsExact(md: MatchData, pat: Alts, h: Hints, cs: nat, offsets: seq<int>, rc: int, ends: seq<nat>)
    requires Compiled(md, pat) && SearchFound(md, h, cs, offsets, rc, ends)
    ensures forall q: nat :: q in ends <==> Matches(md, pat, cs, q)
    ensures forall i: nat, j: nat :: Candidate(md, h, i) && i < cs ==> !Matches(md, pat, i, j)
    ensures forall k :: 0 <= k < |ends| && k < |offsets| / 2 ==>
              offsets[2 * k] == cs && offsets[2 * k + 1] == ends[|ends| - 1 - k]
    ensures forall k :: 0 <= k < |ends| ==> cs <= ends[k] <= |md.subject|
    ensures |ends| > 0 && rc == if 2 * |ends| <= |offsets| then |ends| else 0
  {
    hide CallMatches, Matches, Compiled;
    forall q: nat
      ensures q in ends <==> Matches(md, pat, cs, q)
      ensures q in ends ==> cs <= q <= |md.subject|
    {
      PatternIsCode(md, pat, cs, q);
    }
    forall i: nat, j: nat | Candidate(md, h, i) && i < cs
      ensures !Matches(md, pat, i, j)
    {
      PatternIsCode(md, pat, i, j);
      assert CallMatches(md, 0, i, j) ==> MatchAt(md, i);
    }
    forall k | 0 <= k < |ends|
      ensures cs <= ends[k] <= |md.subject|
    {
      assert ends[k] in ends;
    }
  }

  /** If the search reports no match, the tree matches at no candidate. */
  lemma NoMatchIsExact(md: MatchData, pat: Alts, h: Hints, i: nat, j: nat)
    requires Compiled(md, pat) && SearchNone(md, h) && Candidate(md, h, i)
    ensures !Matches(md, pat, i, j)
  {
    hide CallMatches, Matches, Compiled;
    PatternIsCode(md, pat, i, j);
    assert CallMatches(md, 0, i, j) ==> MatchAt(md, i);
  }

  /** The options that forbid empty matches: anywhere, or only where the search starts. */
  predicate MayReport(md: MatchData, i: nat, j: nat) {
    i == j ==> !md.opts.notEmpty && !(md.opts.notEmptyAtStart && i == md.startOffset)
  }

  lemma MayIsRecordable(md: MatchData, pat: Alts, i: nat, j: nat)
    requires md.startOffset <= i <= |md.subject|
    ensures MayReport(md, i, j) && TreeMatches(md, pat, i, j) <==> Recordable(md, i, j) && TreeMatches(md, pat, i, j)
  {
    hide SpanAlts, MatchAlts;
    if TreeMatches(md, pat, i, j) {
      var d: nat :| SpanAlts(md, pat, pat, d, i, j);
      AltsFree(md, pat, pat, d, i, j);
      AltsBounds(WithoutOptions(md), pat, pat, d, i, j);
    }
  }

  /** The start points: all from the start offset to the end, or the first only, or those in the first line. */
  lemma CandidateMeans(md: MatchData, h: Hints, i: nat)
    ensures Candidate(md, h, i) <==>
            && md.startOffset <= i <= |md.subject|
            && (h.anchored || md.opts.restart ==> i == md.startOffset)
            && (h.firstLine ==> md.tables.nl !in md.subject[md.startOffset..i])
  {
    if md.startOffset <= i <= |md.subject| {
      var line := md.subject[md.startOffset..i];
      forall k | md.startOffset <= k < i && IsNewline(md, k)
        ensures md.tables.nl in line
      {
        assert line[k - md.startOffset] == md.subject[k];
      }
      if md.tables.nl in line {
        var k :| 0 <= k < |line| && line[k] == md.tables.nl;
        assert IsNewline(md, k + md.startOffset);
      }
    }
  }

  /**
   The reported matches are those the tree has without any options, but for empty ones where the options forbid them, if
   the options drop nothing of what the pattern calls.
   */
  lemma SearchIsMeant(md: MatchData, pat: Alts, h: Hints, cs: nat, offsets: seq<int>, rc: int, ends: seq<nat>)
    requires Compiled(md, pat) && DropsNothing(md, pat) && SearchFound(md, h, cs, offsets, rc, ends)
    ensures forall q: nat :: q in ends <==> MayReport(md, cs, q) && TreeMatches(md, pat, cs, q)
    ensures forall i: nat, j: nat :: Candidate(md, h, i) && i < cs ==>
              !(MayReport(md, i, j) && TreeMatches(md, pat, i, j))
  {
    hide Matches, Compiled, DropsNothing, TreeMatches, Window, CallMatches, MatchAt;
    SearchIsExact(md, pat, h, cs, offsets, rc, ends);
    forall i: nat, j: nat | md.startOffset <= i <= |md.subject|
      ensures Matches(md, pat, i, j) <==> MayReport(md, i, j) && TreeMatches(md, pat, i, j)
    {
      ReportedIsMeant(md, pat, i, j);
      MayIsRecordable(md, pat, i, j);
    }
  }

  lemma NoMatchIsMeant(md: MatchData, pat: Alts, h: Hints, i: nat, j: nat)
    requires Compiled(md, pat) && DropsNothing(md, pat) && SearchNone(md, h) && Candidate(md, h, i)
    ensures !(MayReport(md, i, j) && TreeMatches(md, pat, i, j))
  {
    hide Matches, Compiled, DropsNothing, TreeMatches, SearchNone;
    NoMatchIsExact(md, pat, h, i, j);
    ReportedIsMeant(md, pat, i, j);
    MayIsRecordable(md, pat, i, j);
  }

  /**
   Searches of the same subject give the same result whatever hints they use, with or without the
   start-of-match optimisations, as long as they allow the same start points.
   */
  lemma OptimisedIsPlain(md: MatchData, h: Hints, g: Hints, cs: nat, ds: nat, offsets: seq<int>, others: seq<int>,
                         rc: int, sc: int, ends: seq<nat>, fends: seq<nat>)
    requires h.anchored == g.anchored && h.firstLine == g.firstLine && |offsets| == |others|
    requires SearchFound(md, h, cs, offsets, rc, ends) && (SearchFound(md, g, ds, others, sc, fends) || SearchNone(md, g))
    ensures !SearchNone(md, g) && cs == ds && rc == sc && ends == fends
    ensures forall k :: 0 <= k < 2 * |ends| && k < |offsets| / 2 * 2 ==> offsets[k] == others[k]
  {
    hide CallMatches, ReturnCode;
    assert Candidate(md, g, cs) && (SearchFound(md, g, ds, others, sc, fends) ==> Candidate(md, h, ds));
    FoundIsMatch(md, h, cs, offsets, rc, ends);
    if SearchFound(md, g, ds, others, sc, fends) {
      FoundIsMatch(md, g, ds, others, sc, fends);
    }
    assert cs == ds;
    assert forall q: nat :: q in ends <==> q in fends;
    SameIncreasing(ends, fends);
    forall k | 0 <= k < 2 * |ends| && k < |offsets| / 2 * 2
      ensures offsets[k] == others[k]
    {
      var i := k / 2;
      assert k == 2 * i || k == 2 * i + 1;
      assert offsets[2 * i] == others[2 * i] && offsets[2 * i + 1] == others[2 * i + 1];
    }
  }

  /** What a search has come to that has neither failed nor been a restart. */
  ghost predicate SearchResult(md: MatchData, h: Hints, callees: set<nat>, cs: nat, offsets: seq<int>, ws: seq<int>,
                               rc: int, ends: seq<nat>) {
    && PartialsTried(md, h, cs, rc)
    && (|| (rc == PCRE_ERROR_NOMATCH && SearchNone(md, h))
        || (rc >= 0 && SearchFound(md, h, cs, offsets, rc, ends))
        || (rc == PCRE_ERROR_PARTIAL &&
            SearchPartial(md, h, callees, cs, States(Targets(md.code, 0)), offsets, ws, ends)))
  }

  /** The hints of a search that skips start points are true of partial matches, too. */
  ghost predicate SkipsSafely(md: MatchData, h: Hints) {
    h.startOptimize ==> HintsHoldOfRuns(md, h)
  }

  /**
   With partial matching, too, searches of the same subject give the same result whatever hints they use, if the hints
   are true of everything that gets past a character.
   */
  lemma OptimisedKeepsPartials(md: MatchData, h: Hints, g: Hints, callees: set<nat>, cs: nat, ds: nat,
                               offsets: seq<int>, others: seq<int>, ws: seq<int>, vs: seq<int>,
                               rc: int, sc: int, ends: seq<nat>, fends: seq<nat>)
    requires h.anchored == g.anchored && h.firstLine == g.firstLine && |offsets| == |others| && !md.opts.restart
    requires SkipsSafely(md, h) && SkipsSafely(md, g) && ValidCode(md.code, callees) && 0 in callees
    requires SearchResult(md, h, callees, cs, offsets, ws, rc, ends)
    requires SearchResult(md, g, callees, ds, others, vs, sc, fends)
    ensures rc == sc && (rc != PCRE_ERROR_NOMATCH ==> cs == ds && ends == fends)
  {
    hide PartialsTried, SearchNone, SearchFound, SearchPartial, SkipsSafely, ValidCode;
    if rc == PCRE_ERROR_PARTIAL {
      PartialIsKept(md, h, g, callees, cs, ds, offsets, others, ws, vs, sc, ends, fends);
    } else if sc == PCRE_ERROR_PARTIAL {
      PartialIsKept(md, g, h, callees, ds, cs, others, offsets, vs, ws, rc, fends, ends);
    } else if rc >= 0 {
      OptimisedIsPlain(md, h, g, cs, ds, offsets, others, rc, sc, ends, fends);
    } else if sc >= 0 {
      OptimisedIsPlain(md, g, h, ds, cs, others, offsets, sc, rc, fends, ends);
    }
  }

  lemma PartialIsKept(md: MatchData, h: Hints, g: Hints, callees: set<nat>, cs: nat, ds: nat,
                      offsets: seq<int>, others: seq<int>, ws: seq<int>, vs: seq<int>,
                      sc: int, ends: seq<nat>, fends: seq<nat>)
    requires h.anchored == g.anchored && h.firstLine == g.firstLine && !md.opts.restart
    requires SkipsSafely(md, h) && SkipsSafely(md, g) && ValidCode(md.code, callees) && 0 in callees
    requires SearchResult(md, h, callees, cs, offsets, ws, PCRE_ERROR_PARTIAL, ends)
    requires SearchResult(md, g, callees, ds, others, vs, sc, fends)
    ensures sc == PCRE_ERROR_PARTIAL && ds == cs && fends == ends
  {
    hide CouldContinue, MatchAt, Suspended, HintsHoldOfRuns, Window, ReturnCode, ExactEnds, ValidCode,
         Targets, ChainEnd;
    assert PartialAt(md, cs, true) && Candidate(md, g, cs);
    EndsAreMatches(md, callees, cs, ends);
    if sc >= 0 {
      FoundIsMatch(md, g, ds, others, sc, fends);
    } else if sc == PCRE_ERROR_PARTIAL {
      assert PartialAt(md, ds, true) && Candidate(md, h, ds);
      assert cs == ds;
      SameEnds(md, cs, ends, fends);
    }
  }

  lemma EndsAreMatches(md: MatchData, callees: set<nat>, cs: nat, ends: seq<nat>)
    requires ValidCode(md.code, callees) && 0 in callees
    requires ExactEnds(md, ChainEnd(md.code, 0), cs, States(Targets(md.code, 0)), ends)
    ensures MatchAt(md, cs) <==> ends != []
  {
    hide CallMatches, Targets, FrontReaches, Region;
    IsCallableCallee(md.code, callees, 0);
    CallExact(md, 0, cs, ends);
    if ends != [] {
      assert ends[0] in ends;
    }
  }

  lemma FoundIsMatch(md: MatchData, h: Hints, cs: nat, offsets: seq<int>, rc: int, ends: seq<nat>)
    requires SearchFound(md, h, cs, offsets, rc, ends)
    ensures MatchAt(md, cs)
  {
    hide CallMatches;
    assert ends[0] in ends;
  }

  lemma SameEnds(md: MatchData, cs: nat, ends: seq<nat>, fends: seq<nat>)
    requires var end, first := ChainEnd(md.code, 0), States(Targets(md.code, 0));
             ExactEnds(md, end, cs, first, ends) && ExactEnds(md, end, cs, first, fends)
    ensures ends == fends
  {
    hide FrontReaches;
    assert forall q: nat :: q in ends <==> q in fends;
    SameIncreasing(ends, fends);
  }

  /** Increasing sequences with the same members are the same. */
  lemma {:induction false} SameIncreasing(a: seq<nat>, b: seq<nat>)
    requires Increasing(a) && Increasing(b) && forall q: nat :: q in a <==> q in b
    ensures a == b
    decreases |a|
  {
    if a == [] {
      if b != [] {
        FirstIsIn(b);
      }
    } else {
      assert a[0] in a && a[0] in b;
      assert b[0] in a;
      assert a[0] == b[0];
      var a', b' := a[1..], b[1..];
      forall q: nat
        ensures q in a' <==> q in b'
      {
        RestIsRest(a, q);
        RestIsRest(b, q);
      }
      SameIncreasing(a', b');
      assert a == [a[0]] + a' && b == [b[0]] + b';
    }
  }

  lemma FirstIsIn(b: seq<nat>)
    requires b != []
    ensures b[0] in b
  {
  }

  lemma RestIsRest(a: seq<nat>, q: nat)
    requires Increasing(a) && a != []
    ensures q in a[1..] <==> q in a && q != a[0]
  {
    assert a == [a[0]] + a[1..];
    assert forall k :: 0 <= k < |a[1..]| ==> a[1..][k] == a[k + 1] > a[0];
  }

  // ---------- What the hints say ----------

  /** The byte is the letter, or its other case if the case does not matter. */
  predicate IsThat(tb: Tables, l: Letter, c: byte) {
    c == l.c || (l.caseless && c == tb.fcc[l.c])
  }

  predicate ReqFollows(md: MatchData, l: Letter, p: nat) {
    exists k :: p <= k < |md.subject| && IsThat(md.tables, l, md.subject[k])
  }

  ghost predicate TreeAt(md: MatchData, pat: Alts, i: nat) {
    i <= |md.subject| && exists j: nat :: Matches(md, pat, i, j)
  }

  /** Every match starts with the letter. */
  ghost predicate StartsWith(md: MatchData, pat: Alts, l: Letter) {
    forall i: nat :: TreeAt(md, pat, i) ==> i < |md.subject| && IsThat(md.tables, l, md.subject[i])
  }

  /** Every match starts with a character whose bit is set. */
  ghost predicate StartsIn(md: MatchData, pat: Alts, bits: seq<byte>)
    requires |bits| == 32
  {
    forall i: nat :: TreeAt(md, pat, i) ==>
      i < |md.subject| && bits[md.subject[i] / 8] / [1, 2, 4, 8, 16, 32, 64, 128][md.subject[i] % 8] % 2 == 1
  }

  /** Where there is a match inside a line there is one a character earlier. */
  ghost predicate StartsLines(md: MatchData, pat: Alts) {
    forall i: nat :: TreeAt(md, pat, i) && i > md.startOffset && md.subject[i - 1] != md.tables.nl ==>
      TreeAt(md, pat, i - 1)
  }

  /** From the start of every match, n characters are left. */
  ghost predicate IsLong(md: MatchData, pat: Alts, n: nat) {
    forall i: nat :: TreeAt(md, pat, i) ==> |md.subject| - i >= n
  }

  /** The letter follows the start of every match, perhaps only behind its first character. */
  ghost predicate Holds(md: MatchData, pat: Alts, l: Letter, behind: bool) {
    forall i: nat :: TreeAt(md, pat, i) ==> ReqFollows(md, l, if behind then i + 1 else i)
  }

  /** What makes the hints true of a pattern. */
  lemma HintsMean(md: MatchData, pat: Alts, h: Hints)
    requires Compiled(md, pat)
    requires h.startBits.Some? ==> |h.startBits.value| == 32
    ensures HintsHold(md, h) <==>
            && (h.firstChar.Some? ==> StartsWith(md, pat, h.firstChar.value))
            && (h.startBits.Some? ==> StartsIn(md, pat, h.startBits.value))
            && (h.startLine ==> StartsLines(md, pat))
            && (h.minLength.Some? ==> IsLong(md, pat, h.minLength.value))
            && (h.reqChar.Some? ==> Holds(md, pat, h.reqChar.value, h.firstChar.Some?))
  {
    hide Compiled, MatchAt, HasBit, TreeAt, ReqFrom, ReqFollows, IsLetter, IsThat, InBits, WasNewline;
    FirstMeans(md, pat, h);
    BitsMean(md, pat, h);
    LineMeans(md, pat, h);
    LengthMeans(md, pat, h);
    if h.reqChar.Some? {
      ReqMeans(md, pat, h, h.firstChar.Some?);
    }
  }

  lemma FirstMeans(md: MatchData, pat: Alts, h: Hints)
    requires Compiled(md, pat)
    ensures h.firstChar.Some? ==>
              (StartsWith(md, pat, h.firstChar.value) <==> forall i: nat :: i <= |md.subject| && MatchAt(md, i) ==>
                 i < |md.subject| && IsLetter(md.tables, h.firstChar.value, md.subject[i]))
  {
    hide Compiled, MatchAt, TreeAt;
    AreTrees(md, pat);
  }

  lemma BitsMean(md: MatchData, pat: Alts, h: Hints)
    requires Compiled(md, pat) && (h.startBits.Some? ==> |h.startBits.value| == 32)
    ensures h.startBits.Some? ==>
              (StartsIn(md, pat, h.startBits.value) <==> forall i: nat :: i <= |md.subject| && MatchAt(md, i) ==>
                 i < |md.subject| && InBits(h.startBits.value, md.subject[i]))
  {
    hide Compiled, MatchAt, TreeAt, HasBit;
    AreTrees(md, pat);
    forall b: byte, k: nat | k < 8
      ensures HasBit(b, k) <==> b / [1, 2, 4, 8, 16, 32, 64, 128][k] % 2 == 1
    {
      BitIs(b, k);
    }
  }

  lemma LineMeans(md: MatchData, pat: Alts, h: Hints)
    requires Compiled(md, pat)
    ensures StartsLines(md, pat) <==> forall i: nat ::
              i <= |md.subject| && MatchAt(md, i) && i > md.startOffset && !WasNewline(md, i) ==> MatchAt(md, i - 1)
  {
    hide Compiled, MatchAt, TreeAt;
    AreTrees(md, pat);
  }

  lemma LengthMeans(md: MatchData, pat: Alts, h: Hints)
    requires Compiled(md, pat)
    ensures h.minLength.Some? ==>
              (IsLong(md, pat, h.minLength.value) <==> forall i: nat ::
                 i <= |md.subject| && MatchAt(md, i) ==> i + h.minLength.value <= |md.subject|)
  {
    hide Compiled, MatchAt, TreeAt;
    AreTrees(md, pat);
  }

  lemma ReqMeans(md: MatchData, pat: Alts, h: Hints, behind: bool)
    requires Compiled(md, pat) && h.reqChar.Some?
    ensures Holds(md, pat, h.reqChar.value, behind) <==> forall i: nat ::
              i <= |md.subject| && MatchAt(md, i) ==> ReqFrom(md, h, i + if behind then 1 else 0)
  {
    hide Compiled, MatchAt, TreeAt;
    AreTrees(md, pat);
    forall p: nat
      ensures ReqFrom(md, h, p) <==> ReqFollows(md, h.reqChar.value, p)
    {
      assert forall c: byte :: IsLetter(md.tables, h.reqChar.value, c) <==> IsThat(md.tables, h.reqChar.value, c);
    }
    hide ReqFrom, ReqFollows;
  }

  lemma AreTrees(md: MatchData, pat: Alts)
    requires Compiled(md, pat)
    ensures forall i: nat :: i <= |md.subject| ==> (MatchAt(md, i) <==> TreeAt(md, pat, i))
    ensures forall i: nat :: TreeAt(md, pat, i) ==> i <= |md.subject|
  {
    hide Compiled, MatchAt;
    forall i: nat | i <= |md.subject|
      ensures MatchAt(md, i) <==> TreeAt(md, pat, i)
    {
      AtIsTree(md, pat, i);
    }
  }

  lemma AtIsTree(md: MatchData, pat: Alts, i: nat)
    requires Compiled(md, pat) && i <= |md.subject|
    ensures MatchAt(md, i) <==> TreeAt(md, pat, i)
  {
    hide Compiled, Matches, CallMatches;
    forall j: nat
      ensures CallMatches(md, 0, i, j) <==> Matches(md, pat, i, j)
    {
      PatternIsCode(md, pat, i, j);
    }
  }

  // ---------- Partial matches ----------

  /** The instruction at o looks at a character: the types, single characters and their repeats, and classes. */
  predicate LooksOn(code: seq<byte>, o: nat) {
    o < |code| && (6 <= code[o] <= 13 || 29 <= code[o] <= 97 || code[o] == 110 || code[o] == 111)
  }

  /** From i the pattern gets past a character, and at the end of the subject it looks for one more. */
  ghost predicate WantsMore(md: MatchData, i: nat) {
    && i < |md.subject|
    && exists o: nat :: LooksOn(md.code, o) &&
         FrontReaches(md, ChainEnd(md.code, 0), o, i, States(Targets(md.code, 0)), |md.subject|)
  }

  /** What a run of a compiled pattern gets to is an instruction of the model. */
  lemma ReachedOk(md: MatchData, pat: Alts, i: nat, o: nat, q: nat)
    requires Compiled(md, pat)
    requires FrontReaches(md, ChainEnd(md.code, 0), o, i, States(Targets(md.code, 0)), q)
    ensures o < |md.code| && (Inspects(md.code, o) <==> LooksOn(md.code, o))
  {
    hide Compiled, AnyAccepts, Decode, ChainEnd, IsCallable, CountOk;
    var end, ts := ChainEnd(md.code, 0), Targets(md.code, 0);
    CompiledIsValid(md, pat);
    var region: set<nat> :| Region(md.code, Callees(pat), 0, region);
    var k :| 0 <= k < |ts| && Reaches(md, end, o, ConfigOf(i, States(ts)[k]), q);
    var n: nat :| AnyAccepts(md, end, o, ConfigOf(i, States(ts)[k]), q, n);
    assert ts[k] in region;
    ReachedInside(md, Callees(pat), 0, region, o, ConfigOf(i, States(ts)[k]), q, n);
    assert InstrOk(md.code, o);
    OpcodeKinds(md.code, o);
  }

  lemma PartialAtMeans(md: MatchData, pat: Alts, i: nat, none: bool)
    requires Compiled(md, pat)
    ensures PartialAt(md, i, none) <==> (md.opts.partialHard || (md.opts.partialSoft && none)) && WantsMore(md, i)
  {
    hide Compiled, Inspects, LooksOn, FrontReaches, Targets, ChainEnd;
    forall o: nat | FrontReaches(md, ChainEnd(md.code, 0), o, i, States(Targets(md.code, 0)), |md.subject|)
      ensures Inspects(md.code, o) <==> LooksOn(md.code, o)
    {
      ReachedOk(md, pat, i, o, |md.subject|);
    }
  }

  /**
   When the result is partial.  Softly, only if nothing matches from the start; hard, even if something does.  In either
   case the pattern wants more than the subject has; and where it does from an earlier start, that start has been
   reported.  A partial match is reported by its start and the end of the subject.
   */
  lemma PartialIsMeant(md: MatchData, pat: Alts, h: Hints, callees: set<nat>, cs: nat, offsets: seq<int>, ws: seq<int>,
                       rc: int, ends: seq<nat>)
    requires Compiled(md, pat) && !md.opts.restart && SkipsSafely(md, h)
    requires SearchResult(md, h, callees, cs, offsets, ws, rc, ends)
    ensures rc == -12 ==>
              && (md.opts.partialHard || (md.opts.partialSoft && forall q: nat :: !Matches(md, pat, cs, q)))
              && WantsMore(md, cs) && (forall q: nat :: q in ends <==> Matches(md, pat, cs, q))
              && (|offsets| >= 2 ==> offsets[0] == cs && offsets[1] == |md.subject|)
              && (|offsets| > 2 ==> offsets[2] == cs)
    ensures rc >= 0 ==> (exists q: nat :: Matches(md, pat, cs, q)) && !(md.opts.partialHard && WantsMore(md, cs))
    ensures md.opts.partialHard || md.opts.partialSoft ==>
              forall i: nat :: Candidate(md, h, i) && (rc == -1 || i < cs) ==> !WantsMore(md, i)
    ensures forall i: nat, j: nat :: Candidate(md, h, i) && (rc == -1 || i < cs) ==> !Matches(md, pat, i, j)
    ensures rc == -12 || rc == -1 || rc >= 0
  {
    hide Compiled, Matches, WantsMore, PartialAt, Candidate, MatchAt, CouldContinue, HintsHoldOfRuns, Window, ReturnCode,
         Suspended, ExactEnds, Targets, ChainEnd;
    forall i: nat, j: nat | Candidate(md, h, i)
      ensures i <= |md.subject| && (Matches(md, pat, i, j) ==> MatchAt(md, i))
    {
      CandidateInside(md, h, i);
      MatchIsTree(md, pat, i, j);
    }
    forall i: nat, none: bool
      ensures PartialAt(md, i, none) <==>
              (md.opts.partialHard || (md.opts.partialSoft && none)) && WantsMore(md, i)
    {
      PartialAtMeans(md, pat, i, none);
    }
    forall i: nat | Candidate(md, h, i) && (rc == -1 || i < cs)
      ensures !PartialAt(md, i, true)
    {
      CandidateInside(md, h, i);
    }
    if rc == -12 {
      PartialHere(md, pat, cs, ends);
    } else if rc >= 0 {
      SearchIsExact(md, pat, h, cs, offsets, rc, ends);
      assert ends[0] in ends;
    }
  }

  lemma MatchIsTree(md: MatchData, pat: Alts, i: nat, j: nat)
    requires Compiled(md, pat) && i <= |md.subject|
    ensures Matches(md, pat, i, j) ==> MatchAt(md, i)
  {
    hide Compiled, Matches, CallMatches;
    PatternIsCode(md, pat, i, j);
  }

  lemma PartialHere(md: MatchData, pat: Alts, cs: nat, ends: seq<nat>)
    requires Compiled(md, pat)
    requires PartialMatch(md, ChainEnd(md.code, 0), cs, States(Targets(md.code, 0)), cs, ends == [])
    requires ExactEnds(md, ChainEnd(md.code, 0), cs, States(Targets(md.code, 0)), ends)
    ensures PartialAt(md, cs, ends == [])
    ensures forall q: nat :: q in ends <==> Matches(md, pat, cs, q)
  {
    hide Compiled, Matches, CallMatches, CouldContinue, Targets, ChainEnd, FrontReaches;
    CompiledIsValid(md, pat);
    IsCallableCallee(md.code, Callees(pat), 0);
    CallExact(md, 0, cs, ends);
    forall q: nat
      ensures q in ends <==> Matches(md, pat, cs, q)
    {
      PatternIsCode(md, pat, cs, q);
    }
  }

  // ---------- Matching in pieces ----------

  /** The same pattern on subjects that are the same from p in md and from r in other on. */
  ghost predicate SameRest(md: MatchData, other: MatchData, p: nat, r: nat) {
    && other.code == md.code && other.tables == md.tables
    && p <= |md.subject| && r <= |other.subject|
    && md.subject[p..] == other.subject[r..]
  }

  lemma EdgeShifts(md: MatchData, other: MatchData, p: nat, r: nat, end: nat, a: Config, b: Config)
    requires SameRest(md, other, p, r) && !Decode(md.code, a.off).Call? && AnyEdge(md, end, a, b) && p <= a.pos
    ensures b.pos >= a.pos
    ensures AnyEdge(other, end, a.(pos := a.pos - p + r), b.(pos := b.pos - p + r))
  {
    hide Decode;
    assert a.pos < |md.subject| ==> md.subject[p..][a.pos - p] == other.subject[r..][a.pos - p];
    assert |md.subject[p..]| == |other.subject[r..]|;
  }

  lemma {:induction false} ReachesShifts(md: MatchData, other: MatchData, p: nat, r: nat, end: nat, region: set<nat>,
                                         goal: nat, a: Config, q: nat, n: nat)
    requires SameRest(md, other, p, r) && Quiet(md.code, end, region) && a.off in region && p <= a.pos
    requires AnyAccepts(md, end, goal, a, q, n)
    ensures q >= p && AnyAccepts(other, end, goal, a.(pos := a.pos - p + r), q - p + r, n)
    decreases n
  {
    hide Decode, Quiet, AnyEdge, Targets;
    if n != 0 {
      var b: Config :| AnyEdge(md, end, a, b) && AnyAccepts(md, end, goal, b, q, n - 1);
      QuietEdge(md, end, region, a, b);
      EdgeShifts(md, other, p, r, end, a, b);
      ReachesShifts(md, other, p, r, end, region, goal, b, q, n - 1);
    }
  }

  lemma FrontShifts(md: MatchData, other: MatchData, p: nat, r: nat, end: nat, goal: nat, front: seq<State>, q: nat)
    requires SameRest(md, other, p, r) && QuietFrom(md.code, end, front) && FrontReaches(md, end, goal, p, front, q)
    ensures q >= p && FrontReaches(other, end, goal, r, front, q - p + r)
  {
    hide AnyAccepts, Quiet;
    var region: set<nat> :| Quiet(md.code, end, region) && Within(region, front);
    var k :| 0 <= k < |front| && Reaches(md, end, goal, ConfigOf(p, front[k]), q);
    var n: nat :| AnyAccepts(md, end, goal, ConfigOf(p, front[k]), q, n);
    ReachesShifts(md, other, p, r, end, region, goal, ConfigOf(p, front[k]), q, n);
    assert Reaches(other, end, goal, ConfigOf(r, front[k]), q - p + r);
  }

  lemma FrontsAgree(md: MatchData, other: MatchData, p: nat, r: nat, end: nat, goal: nat, front: seq<State>, x: nat)
    requires SameRest(md, other, p, r) && QuietFrom(md.code, end, front)
    ensures FrontReaches(md, end, goal, p, front, p + x) <==> FrontReaches(other, end, goal, r, front, r + x)
  {
    hide FrontReaches, QuietFrom;
    if FrontReaches(md, end, goal, p, front, p + x) {
      FrontShifts(md, other, p, r, end, goal, front, p + x);
    }
    if FrontReaches(other, end, goal, r, front, r + x) {
      FrontShifts(other, md, r, p, end, goal, front, r + x);
    }
  }

  /** A run on one piece of the text: the piece is md.subject[start..]. */
  datatype Run = Run(md: MatchData, start: nat) {
    ghost predicate Ok(code: seq<byte>, tables: Tables) {
      md.code == code && md.tables == tables && start <= |md.subject|
    }

    function Text(): seq<byte>
      requires start <= |md.subject|
    {
      md.subject[start..]
    }
  }

  function Text(runs: seq<Run>): seq<byte>
    requires forall r <- runs :: r.start <= |r.md.subject|
  {
    if runs == [] then [] else runs[0].Text() + Text(runs[1..])
  }

  /**
   Partial matches one after the other: the states fronts[k] that run k starts with are, at the end of
   its piece, carried by the states fronts[k + 1] that the next run resumes.
   */
  ghost predicate Relay(code: seq<byte>, tables: Tables, end: nat, runs: seq<Run>, fronts: seq<seq<State>>) {
    && |fronts| == |runs| + 1
    && (forall r <- runs :: r.Ok(code, tables))
    && (forall k :: 0 <= k < |runs| ==>
          Carries(runs[k].md, end, runs[k].start, fronts[k], |runs[k].md.subject|, fronts[k + 1]))
  }

  /** After any number of pieces, a run on the last one reaches what a run on the whole text reaches. */
  lemma {:induction false} RelayIsWhole(code: seq<byte>, tables: Tables, end: nat, goal: nat, runs: seq<Run>,
                                        fronts: seq<seq<State>>, last: Run, x: nat)
    requires last.Ok(code, tables) && Relay(code, tables, end, runs, fronts) && QuietFrom(code, end, fronts[0])
    ensures var whole := last.md.(subject := Text(runs) + last.Text());
            FrontReaches(last.md, end, goal, last.start, fronts[|runs|], last.start + x) <==>
            FrontReaches(whole, end, goal, 0, fronts[0], |Text(runs)| + x)
    decreases |runs|
  {
    hide FrontReaches, Carries, QuietFrom;
    if runs == [] {
      var whole := last.md.(subject := Text(runs) + last.Text());
      assert whole.subject[0..] == last.md.subject[last.start..];
      FrontsAgree(last.md, whole, last.start, 0, end, goal, fronts[0], x);
    } else {
      hide Relay, Text;
      var first, others := runs[0], runs[1..];
      RelayUnfold(code, tables, end, runs, fronts);
      StaysQuiet(first.md, end, first.start, fronts[0], |first.md.subject|, fronts[1]);
      RelayIsWhole(code, tables, end, goal, others, fronts[1..], last, x);
      JoinIsWhole(first, last.md, end, goal, fronts[0], fronts[1], Text(others) + last.Text(), |Text(others)| + x);
      assert first.Text() + (Text(others) + last.Text()) == Text(runs) + last.Text();
    }
  }

  lemma RelayUnfold(code: seq<byte>, tables: Tables, end: nat, runs: seq<Run>, fronts: seq<seq<State>>)
    requires Relay(code, tables, end, runs, fronts) && runs != []
    ensures runs[0].Ok(code, tables) && forall r <- runs[1..] :: r.start <= |r.md.subject|
    ensures Carries(runs[0].md, end, runs[0].start, fronts[0], |runs[0].md.subject|, fronts[1])
    ensures Relay(code, tables, end, runs[1..], fronts[1..])
    ensures Text(runs) == runs[0].Text() + Text(runs[1..])
  {
    hide Carries;
    assert forall r <- runs[1..] :: r in runs;
  }

  lemma StaysQuiet(md: MatchData, end: nat, p0: nat, start: seq<State>, p: nat, front: seq<State>)
    requires Carries(md, end, p0, start, p, front) && QuietFrom(md.code, end, start)
    ensures QuietFrom(md.code, end, front)
  {
    hide FrontReaches, QuietFrom;
  }

  /** One join: what comes after the first piece, seen from the piece's start and from the join. */
  lemma JoinIsWhole(first: Run, md: MatchData, end: nat, goal: nat, front: seq<State>, next: seq<State>,
                    rest: seq<byte>, x: nat)
    requires first.Ok(md.code, md.tables) && QuietFrom(md.code, end, front)
    requires Carries(first.md, end, first.start, front, |first.md.subject|, next)
    ensures FrontReaches(md.(subject := first.Text() + rest), end, goal, 0, front, |first.Text()| + x) <==>
            FrontReaches(md.(subject := rest), end, goal, 0, next, x)
  {
    hide FrontReaches, QuietFrom;
    var n := |first.md.subject|;
    var joined := first.md.(subject := first.md.subject + rest);
    var whole, tail := md.(subject := first.Text() + rest), md.(subject := rest);
    assert Continues(first.md, joined);
    assert joined.subject[first.start..] == whole.subject[0..];
    assert joined.subject[n..] == tail.subject[0..];
    FrontsAgree(joined, whole, first.start, 0, end, goal, front, |first.Text()| + x);
    FrontsAgree(joined, tail, n, 0, end, goal, next, x);
  }

  /**
   Partial-then-restart equals one run.  Runs on the pieces end in partial matches, each resuming the
   last; the run on the final piece reports exactly the matches of the pattern on the whole text that
   end in the final piece.
   */
  lemma RestartIsOneRun(pat: Alts, runs: seq<Run>, fronts: seq<seq<State>>, last: Run, ends: seq<nat>)
    requires Compiled(last.md, pat) && AltsCalls(pat) == {} && last.start <= |last.md.subject|
    requires var end := ChainEnd(last.md.code, 0);
             && Relay(last.md.code, last.md.tables, end, runs, fronts)
             && fronts[0] == States(Targets(last.md.code, 0))
             && ExactEnds(last.md, end, last.start, fronts[|runs|], ends)
    ensures forall q: nat :: q in ends <==>
              && last.start <= q && Recordable(last.md, last.start, q)
              && TreeMatches(last.md.(subject := Text(runs) + last.Text()), pat, 0, |Text(runs)| + (q - last.start))
  {
    hide FrontReaches, Carries, QuietFrom, Compiled, TreeMatches, Targets, ChainEnd;
    var end := ChainEnd(last.md.code, 0);
    var whole := last.md.(subject := Text(runs) + last.Text());
    CompiledSame(last.md, pat, whole);
    BranchesQuiet(last.md, pat);
    DropsNothingIf(whole, pat);
    forall q: nat
      ensures q in ends <==>
              && last.start <= q && Recordable(last.md, last.start, q)
              && TreeMatches(whole, pat, 0, |Text(runs)| + (q - last.start))
    {
      if last.start <= q {
        RelayIsWhole(last.md.code, last.md.tables, end, end, runs, fronts, last, q - last.start);
        FrontIsMeant(whole, pat, 0, |Text(runs)| + (q - last.start));
      }
    }
  }

  /**
   The same for one join and in terms of the search: after a partial match from cs in one piece, a restart on the next
   piece with the workspace that was left reports, the longest first, the matches from cs in the two pieces put together
   that end in the second one.
   */
  lemma PartialThenRestart(pat: Alts, md: MatchData, next: MatchData, h: Hints, callees: set<nat>, cs: nat,
                           partial: seq<int>, ws: seq<int>, before: seq<nat>,
                           offsets: seq<int>, rc: int, ends: seq<nat>)
    requires Compiled(next, pat) && AltsCalls(pat) == {} && next.code == md.code && next.tables == md.tables
    requires SearchPartial(md, h, callees, cs, States(Targets(md.code, 0)), partial, ws, before)
    requires next.startOffset <= |next.subject|
    requires Finished(next, 0, next.startOffset, Saved(ws), offsets, rc, ends)
    ensures var joined := next.(subject := md.subject[cs..] + next.subject[next.startOffset..]);
            forall q: nat :: q in ends <==>
              && next.startOffset <= q && Recordable(next, next.startOffset, q)
              && TreeMatches(joined, pat, 0, |md.subject| - cs + (q - next.startOffset))
    ensures forall k :: 0 <= k < |ends| && k < |offsets| / 2 ==>
              offsets[2 * k] == next.startOffset && offsets[2 * k + 1] == ends[|ends| - 1 - k]
  {
    hide FrontReaches, Carries, QuietFrom, Compiled, TreeMatches, Targets, ChainEnd, Recordable, Saved, NoneBefore,
         PartialMatch, Resumable, SavedOk;
    var run, last := Run(md, cs), Run(next, next.startOffset);
    var runs, fronts := [run], [States(Targets(md.code, 0)), Saved(ws)];
    assert Text(runs) == run.Text() + Text([]) == md.subject[cs..];
    assert Relay(next.code, next.tables, ChainEnd(next.code, 0), runs, fronts);
    RestartIsOneRun(pat, runs, fronts, last, ends);
  }

  lemma CompiledSame(md: MatchData, pat: Alts, other: MatchData)
    requires Compiled(md, pat) && other.code == md.code
    ensures Compiled(other, pat)
  {
  }

  /** From the branches of the compiled pattern, its end is reached where the tree matches under the options. */
  lemma FrontIsTree(md: MatchData, pat: Alts, i: nat, j: nat)
    requires Compiled(md, pat) && i <= |md.subject|
    ensures var end := ChainEnd(md.code, 0);
            FrontReaches(md, end, end, i, States(Targets(md.code, 0)), j) <==>
            RunMatches(md, pat, i, j)
  {
    hide Compiled, MatchAlts, Accepts, AnyAccepts, Targets, FrontReaches, ChainEnd;
    var end := ChainEnd(md.code, 0);
    CompiledIsValid(md, pat);
    IsCallableCallee(md.code, Callees(pat), 0);
    BranchesReach(md, 0, i, j);
    if Reaches(md, end, end, Config(i, 0, 0), j) {
      var n: nat :| AnyAccepts(md, end, end, Config(i, 0, 0), j, n);
      var d := AcceptsSinks(md, end, Config(i, 0, 0), j, n);
      CallSound(md, pat, 0, d, i, j, n);
    }
    if RunMatches(md, pat, i, j) {
      var d: nat :| MatchAlts(md, pat, pat, d, i, j);
      CallComplete(md, pat, 0, d, i, j);
      var n: nat :| Accepts(md, end, d, Config(i, 0, 0), j, n);
      AcceptsLifts(md, end, d, Config(i, 0, 0), j, n);
    }
  }

  /** Where the tree matches without any options, if the options drop nothing of what the pattern calls. */
  lemma FrontIsMeant(md: MatchData, pat: Alts, i: nat, j: nat)
    requires Compiled(md, pat) && i <= |md.subject| && DropsNothing(md, pat)
    ensures var end := ChainEnd(md.code, 0);
            FrontReaches(md, end, end, i, States(Targets(md.code, 0)), j) <==> TreeMatches(md, pat, i, j)
  {
    hide Compiled, DropsNothing, RunMatches, TreeMatches, Targets, FrontReaches, ChainEnd;
    FrontIsTree(md, pat, i, j);
    RunIsMeant(md, pat, i, j);
  }

  /** A run of a pattern that calls no group meets no call. */
  lemma BranchesQuiet(md: MatchData, pat: Alts)
    requires Compiled(md, pat) && AltsCalls(pat) == {}
    ensures QuietFrom(md.code, ChainEnd(md.code, 0), States(Targets(md.code, 0)))
  {
    hide Compiled, Decode, InstrOk, IsCallable, ChainEnd;
    CompiledIsCallFree(md, pat);
    var region: set<nat> :| Region(md.code, {}, 0, region);
    assert Quiet(md.code, ChainEnd(md.code, 0), region);
    BranchesOk(md, {}, 0, region, 0);
  }

  // ---------- Failures ----------

  /** A search for a pattern that calls no group does not fail if the workspace has room enough. */
  lemma SearchFits(md: MatchData, pat: Alts, cap: nat, i: nat, rc: int)
    requires Compiled(md, pat) && AltsCalls(pat) == {} && !md.opts.restart && EnoughRoom(md) <= cap
    ensures RunFits(md, 0, cap) && !Faulty(md, 0, i, States(Targets(md.code, 0)), [], cap, rc)
  {
    hide Compiled, CallFree, Faulty, EnoughRoom, Targets;
    CompiledIsCallFree(md, pat);
    FitsIsSound(md, 0, i, [], cap, rc);
  }

  /** For lack of room aside, a run fails exactly if it comes to a call that is at fault. */
  lemma FailureIsExact(md: MatchData, c: nat, i: nat, first: seq<State>, calls: seq<(nat, nat)>, cap: nat, rc: int)
    requires !Faulty(md, c, i, first, calls, cap, PCRE_ERROR_DFA_WSSIZE)
    requires if IsFailure(rc) then Faulty(md, c, i, first, calls, cap, rc) else Safe(md, c, i, first, calls)
    ensures IsFailure(rc) <==> !Safe(md, c, i, first, calls)
  {
    hide RunFault, Safe;
    if IsFailure(rc) && Safe(md, c, i, first, calls) {
      var d: nat :| RunFault(md, c, i, first, calls, cap, rc, d);
      NoRunFault(md, c, i, first, calls, cap, rc, d);
    }
  }

  lemma {:induction false} CallInside(md: MatchData, end: nat, d: nat, a: Config, q: nat, n: nat)
    requires Accepts(md, end, d, a, q, n) && a.pos <= |md.subject|
    ensures q <= |md.subject|
    decreases n
  {
    hide Decode, Calls, Edge;
    if n > 0 {
      var m: Config :| Edge(md, end, d, a, m) && Accepts(md, end, d, m, q, n - 1);
      EdgeInside(md, end, d, a, m);
      CallInside(md, end, d, m, q, n - 1);
    }
  }

  lemma EdgeInside(md: MatchData, end: nat, d: nat, a: Config, b: Config)
    requires Edge(md, end, d, a, b) && a.pos <= |md.subject|
    ensures b.pos <= |md.subject|
  {
    hide Decode, Calls;
  }

  lemma MatchInside(md: MatchData, callpat: nat, p: nat, q: nat)
    requires CallMatches(md, callpat, p, q) && p <= |md.subject|
    ensures q <= |md.subject|
  {
    hide Calls;
    var d: nat :| Calls(md, callpat, d, p, q);
    var n := CallsRun(md, callpat, d, p, q);
    CallInside(md, ChainEnd(md.code, callpat), d, Config(p, callpat, 0), q, n);
  }

  lemma NeverCrowded(md: MatchData, callpat: nat, p: nat)
    requires |md.subject| < 500 && p <= |md.subject|
    ensures !Crowded(md, callpat, p, 500)
  {
    hide CallMatches;
    forall ends: seq<nat> | Increasing(ends) && forall q <- ends :: CallMatches(md, callpat, p, q)
      ensures |ends| <= 500
    {
      forall k | 0 <= k < |ends|
        ensures ends[k] <= |md.subject|
      {
        assert ends[k] in ends;
        MatchInside(md, callpat, p, ends[k]);
      }
      EndsFew(ends, |md.subject|);
    }
  }

  /** A nested run cannot have too many matches if the subject has less than 500 characters. */
  lemma {:induction false} ShortNeverCrowds(md: MatchData, c: nat, i: nat, first: seq<State>, calls: seq<(nat, nat)>,
                                            cap: nat, d: nat)
    requires |md.subject| < 500
    ensures !RunFault(md, c, i, first, calls, cap, -20, d)
    decreases d
  {
    hide Decode, Targets, ChainEnd, FrontReaches, Crowded, Overloaded;
    forall o: nat, p: nat | CallReached(md, ChainEnd(md.code, c), i, first, o, p)
      ensures !CallFault(md, o, p, calls, -20, d)
    {
      var ins := Decode(md.code, o);
      NeverCrowded(md, ins.callpat, p);
      if d > 0 {
        ShortNeverCrowds(md, ins.callpat, p, States(Targets(md.code, ins.callpat)), [(ins.group, p)] + calls, 166, d - 1);
      }
    }
  }

  /** The bracket at c, run from p, comes to a call while it is still at p. */
  ghost predicate CallsAtOnce(md: MatchData, c: nat, p: nat) {
    exists o: nat :: CallReached(md, ChainEnd(md.code, c), p, States(Targets(md.code, c)), o, p)
  }

  /** Calls cannot loop unless some group makes a call before it has got past a character. */
  lemma {:induction false} LoopCallsAtOnce(md: MatchData, c: nat, i: nat, first: seq<State>, calls: seq<(nat, nat)>,
                                           cap: nat, d: nat)
    requires RunFault(md, c, i, first, calls, cap, -26, d)
    requires forall x <- calls :: x.1 <= i
    requires calls == [] || first == States(Targets(md.code, c))
    ensures exists b: nat, p: nat :: i <= p <= |md.subject| && CallsAtOnce(md, b, p)
    decreases d
  {
    hide Decode, Targets, ChainEnd, FrontReaches, Crowded, Overloaded;
    var o: nat, p: nat :| CallReached(md, ChainEnd(md.code, c), i, first, o, p) && CallFault(md, o, p, calls, -26, d);
    NotBefore(md, ChainEnd(md.code, c), o, i, first, p);
    var ins := Decode(md.code, o);
    if (ins.group, p) in calls {
      assert CallsAtOnce(md, c, p);
    } else {
      LoopCallsAtOnce(md, ins.callpat, p, States(Targets(md.code, ins.callpat)), [(ins.group, p)] + calls, 166, d - 1);
    }
  }

  /** The results that are no counts of matches (pcre.h.in:175-209). */
  lemma ErrorNumbers()
    ensures PCRE_ERROR_NOMATCH == -1 && PCRE_ERROR_PARTIAL == -12 && PCRE_ERROR_DFA_WSSIZE == -19
    ensures PCRE_ERROR_DFA_RECURSE == -20 && PCRE_ERROR_BADOFFSET == -24 && PCRE_ERROR_RECURSELOOP == -26
    ensures PCRE_ERROR_DFA_BADRESTART == -30
  {
  }
}
