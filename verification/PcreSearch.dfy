/** `pcre_dfa_exec`: the search along the subject for the first start point that gives a result. */
module PcreSearch {
  import opened Bytes
  import opened PcreCode
  import opened PcreScan
  import opened PcreVectors
  import opened PcreStep
  import opened PcreDfa
  import opened PcreRoom
  import opened PcreExec

  const PCRE_ERROR_BADOFFSET := -24
  const PCRE_ERROR_DFA_BADRESTART := -30
  const REQ_BYTE_MAX := 1000

  datatype Option<+T> = None | Some(value: T)

  /** A character the pattern says something about; if caseless, its other case will do as well. */
  datatype Letter = Letter(c: byte, caseless: bool)

  /** What the compiled pattern and its study data tell the search. */
  datatype Hints = Hints(anchored: bool, firstLine: bool, startOptimize: bool, startLine: bool,
                         firstChar: Option<Letter>, reqChar: Option<Letter>,
                         startBits: Option<seq<byte>>, minLength: Option<nat>)

  predicate IsLetter(tb: Tables, l: Letter, c: byte) {
    c == l.c || (l.caseless && c == tb.fcc[l.c])
  }

  /** IS_NEWLINE and WAS_NEWLINE for a one-character newline. */
  predicate IsNewline(md: MatchData, p: nat) {
    p < |md.subject| && md.subject[p] == md.tables.nl
  }

  predicate WasNewline(md: MatchData, p: nat) {
    0 < p <= |md.subject| && md.subject[p - 1] == md.tables.nl
  }

  predicate InBits(bits: seq<byte>, c: byte) {
    c / 8 < |bits| && HasBit(bits[c / 8], c % 8)
  }

  // ---------- What the hints promise ----------

  ghost predicate MatchAt(md: MatchData, i: nat) {
    exists j: nat :: CallMatches(md, 0, i, j)
  }

  /** The hints are true of the pattern on this subject. */
  ghost predicate HintsHold(md: MatchData, h: Hints) {
    && (h.firstChar.Some? ==> forall i: nat :: i <= |md.subject| && MatchAt(md, i) ==>
          i < |md.subject| && IsLetter(md.tables, h.firstChar.value, md.subject[i]))
    && (h.startBits.Some? ==> forall i: nat :: i <= |md.subject| && MatchAt(md, i) ==>
          i < |md.subject| && InBits(h.startBits.value, md.subject[i]))
    && (h.startLine ==> forall i: nat ::
          i <= |md.subject| && MatchAt(md, i) && i > md.startOffset && !WasNewline(md, i) ==> MatchAt(md, i - 1))
    && (h.minLength.Some? ==> forall i: nat ::
          i <= |md.subject| && MatchAt(md, i) ==> i + h.minLength.value <= |md.subject|)
    && (h.reqChar.Some? ==> forall i: nat ::
          i <= |md.subject| && MatchAt(md, i) ==> ReqFrom(md, h, i + if h.firstChar.Some? then 1 else 0))
  }

  /** The required character occurs at p or later. */
  ghost predicate ReqFrom(md: MatchData, h: Hints, p: nat) {
    h.reqChar.Some? && exists k :: p <= k < |md.subject| && IsLetter(md.tables, h.reqChar.value, md.subject[k])
  }

  // ---------- What the search has to find ----------

  predicate Anchored(md: MatchData, h: Hints) {
    h.anchored || md.opts.restart
  }

  /** Start points the options allow. */
  ghost predicate Candidate(md: MatchData, h: Hints, i: nat) {
    && md.startOffset <= i <= |md.subject|
    && (Anchored(md, h) ==> i == md.startOffset)
    && (h.firstLine ==> forall k :: md.startOffset <= k < i ==> !IsNewline(md, k))
  }

  /** No start point before i matches. */
  ghost predicate NoneBefore(md: MatchData, h: Hints, i: nat) {
    forall k: nat :: k < i && Candidate(md, h, k) ==> !MatchAt(md, k)
  }

  ghost predicate SearchNone(md: MatchData, h: Hints) {
    forall k: nat :: Candidate(md, h, k) ==> !MatchAt(md, k)
  }

  /** A run from i ends in a partial match, if there are no matches (`none`) or in any case. */
  ghost predicate PartialAt(md: MatchData, i: nat, none: bool) {
    PartialMatch(md, ChainEnd(md.code, 0), i, States(Targets(md.code, 0)), i, none)
  }

  /** From i the pattern gets to `goal` at q. */
  ghost predicate Gets(md: MatchData, i: nat, goal: nat, q: nat) {
    FrontReaches(md, ChainEnd(md.code, 0), goal, i, States(Targets(md.code, 0)), q)
  }

  /**
   The hints that choose start points are true of everything that gets past a character, whether it leads to a match or
   not.  So they are if they have been read off the pattern.
   */
  ghost predicate HintsHoldOfRuns(md: MatchData, h: Hints) {
    && (h.firstChar.Some? ==> forall i: nat, goal: nat, q: nat :: Gets(md, i, goal, q) && i < q <= |md.subject| ==>
          IsLetter(md.tables, h.firstChar.value, md.subject[i]))
    && (h.startBits.Some? ==> forall i: nat, goal: nat, q: nat :: Gets(md, i, goal, q) && i < q <= |md.subject| ==>
          InBits(h.startBits.value, md.subject[i]))
    && (h.startLine ==> forall i: nat, goal: nat, q: nat ::
          Gets(md, i, goal, q) && md.startOffset < i < q && !WasNewline(md, i) ==> Gets(md, i - 1, goal, q))
  }

  /** No start point before i ends in a partial match, if the hints allow for partial matches. */
  ghost predicate NoPartialBefore(md: MatchData, h: Hints, i: nat) {
    (h.startOptimize ==> HintsHoldOfRuns(md, h)) ==>
      forall k: nat :: k < i && Candidate(md, h, k) ==> !PartialAt(md, k, true)
  }

  /** A partial match gets past its first character. */
  lemma PartialGets(md: MatchData, i: nat) returns (o: nat)
    requires PartialAt(md, i, true)
    ensures Inspects(md.code, o) && Gets(md, i, o, |md.subject|) && i < |md.subject|
  {
    hide FrontReaches, Inspects;
    o :| Inspects(md.code, o) && Gets(md, i, o, |md.subject|);
  }

  // ---------- Start-of-match optimisations ----------

  /** Advance to the known first character (pcre_dfa_exec.c:3471-3484). */
  method SkipToFirst(md: MatchData, l: Letter, from: nat, end: nat) returns (cs: nat)
    requires from <= end <= |md.subject|
    ensures from <= cs <= end
    ensures forall k :: from <= k < cs ==> !IsLetter(md.tables, l, md.subject[k])
  {
    cs := from;
    while cs < end && !IsLetter(md.tables, l, md.subject[cs])
      invariant from <= cs <= end
      invariant forall k :: from <= k < cs ==> !IsLetter(md.tables, l, md.subject[k])
    {
      cs := cs + 1;
    }
  }

  /** Advance to just after a newline (pcre_dfa_exec.c:3488-3506). */
  method SkipToLine(md: MatchData, from: nat, end: nat) returns (cs: nat)
    requires from <= end <= |md.subject|
    ensures from <= cs <= end
    ensures forall k :: from <= k < cs ==> !WasNewline(md, k)
  {
    cs := from;
    while cs < end && !WasNewline(md, cs)
      invariant from <= cs <= end
      invariant forall k :: from <= k < cs ==> !WasNewline(md, k)
    {
      cs := cs + 1;
    }
  }

  /** Advance to a character in the bitmap of starting characters (pcre_dfa_exec.c:3522-3533). */
  method SkipToBits(md: MatchData, bits: seq<byte>, from: nat, end: nat) returns (cs: nat)
    requires from <= end <= |md.subject|
    ensures from <= cs <= end
    ensures forall k :: from <= k < cs ==> !InBits(bits, md.subject[k])
  {
    cs := from;
    while cs < end && !InBits(bits, md.subject[cs])
      invariant from <= cs <= end
      invariant forall k :: from <= k < cs ==> !InBits(bits, md.subject[k])
    {
      cs := cs + 1;
    }
  }

  /** The first newline at or after p, or the end of the subject (pcre_dfa_exec.c:3443-3459). */
  method LineEnd(md: MatchData, from: nat) returns (t: nat)
    requires from <= |md.subject|
    ensures from <= t <= |md.subject|
    ensures forall k :: from <= k < t ==> !IsNewline(md, k)
    ensures t < |md.subject| ==> IsNewline(md, t)
  {
    t := from;
    while t < |md.subject| && !IsNewline(md, t)
      invariant from <= t <= |md.subject|
      invariant forall k :: from <= k < t ==> !IsNewline(md, k)
    {
      t := t + 1;
    }
  }

  /** Skipping over non-starts of lines skips no first match. */
  lemma {:induction false} LinesSkipped(md: MatchData, h: Hints, from: nat, cs: nat)
    requires HintsHold(md, h) && h.startLine && !Anchored(md, h) && NoneBefore(md, h, from)
    requires md.startOffset < from <= cs <= |md.subject|
    requires forall k :: from <= k < cs ==> !WasNewline(md, k)
    ensures NoneBefore(md, h, cs)
    decreases cs
  {
    hide CallMatches;
    if from < cs {
      LinesSkipped(md, h, from, cs - 1);
      var i := cs - 1;
      assert Candidate(md, h, i) ==> Candidate(md, h, i - 1);
    }
  }

  /** Nor does it skip the first partial match. */
  lemma {:induction false} LinesSkippedPartial(md: MatchData, h: Hints, from: nat, cs: nat)
    requires h.startOptimize && h.startLine && !Anchored(md, h) && NoPartialBefore(md, h, from)
    requires md.startOffset < from <= cs <= |md.subject|
    requires forall k :: from <= k < cs ==> !WasNewline(md, k)
    ensures NoPartialBefore(md, h, cs)
    decreases cs
  {
    hide PartialAt, Gets, Inspects;
    if from < cs && HintsHoldOfRuns(md, h) {
      LinesSkippedPartial(md, h, from, cs - 1);
      var i := cs - 1;
      assert Candidate(md, h, i) ==> Candidate(md, h, i - 1);
      if Candidate(md, h, i) && PartialAt(md, i, true) {
        var o := PartialGets(md, i);
        GetsIsPartial(md, i, i - 1, o);
      }
    }
  }

  lemma GetsIsPartial(md: MatchData, i: nat, k: nat, o: nat)
    requires PartialAt(md, i, true) && k <= i && Inspects(md.code, o) && Gets(md, k, o, |md.subject|)
    ensures PartialAt(md, k, true)
  {
    hide FrontReaches, Inspects;
  }

  /** Places without the right first character are skipped. */
  lemma FirstSkipped(md: MatchData, h: Hints, from: nat, cs: nat)
    requires h.startOptimize && NoPartialBefore(md, h, from) && from <= cs <= |md.subject|
    requires || (h.firstChar.Some? &&
                   forall k :: from <= k < cs ==> !IsLetter(md.tables, h.firstChar.value, md.subject[k]))
             || (h.startBits.Some? && forall k :: from <= k < cs ==> !InBits(h.startBits.value, md.subject[k]))
    ensures NoPartialBefore(md, h, cs)
  {
    hide PartialAt, Gets, Inspects, IsLetter, InBits;
    if HintsHoldOfRuns(md, h) {
      forall k: nat | from <= k < cs
        ensures !PartialAt(md, k, true)
      {
        if PartialAt(md, k, true) {
          var o := PartialGets(md, k);
        }
      }
    }
  }

  /** Without the options for it there are no partial matches. */
  lemma NoPartials(md: MatchData, h: Hints, i: nat)
    requires !md.opts.partialHard && !md.opts.partialSoft
    ensures NoPartialBefore(md, h, i)
  {
    hide CouldContinue, HintsHoldOfRuns;
  }

  /** All the skipping at one turn of the search. */
  method Skip(md: MatchData, h: Hints, from: nat) returns (cs: nat)
    requires HintsHold(md, h) && NoneBefore(md, h, from) && Candidate(md, h, from) && NoPartialBefore(md, h, from)
    ensures from <= cs && Candidate(md, h, cs) && NoneBefore(md, h, cs) && NoPartialBefore(md, h, cs)
  {
    hide MatchAt, HintsHoldOfRuns, NoPartialBefore;
    var end := |md.subject|;
    if h.firstLine {
      end := LineEnd(md, from);
    }
    cs := from;
    if h.startOptimize {
      if !Anchored(md, h) && h.firstChar.Some? {
        cs := SkipToFirst(md, h.firstChar.value, from, end);
        FirstSkipped(md, h, from, cs);
      } else if h.startLine {
        if from > md.startOffset {
          cs := SkipToLine(md, from, end);
          LinesSkipped(md, h, from, cs);
          LinesSkippedPartial(md, h, from, cs);
        }
      } else if !Anchored(md, h) && h.startBits.Some? {
        cs := SkipToBits(md, h.startBits.value, from, end);
        FirstSkipped(md, h, from, cs);
      }
    }
  }

  /** Looks for the required character (pcre_dfa_exec.c:3579-3593). */
  method FindReq(md: MatchData, l: Letter, from: nat) returns (p: nat)
    ensures from <= p
    ensures p < |md.subject| ==> IsLetter(md.tables, l, md.subject[p])
    ensures forall k :: from <= k < p && k < |md.subject| ==> !IsLetter(md.tables, l, md.subject[k])
    ensures p <= |md.subject| || p == from
  {
    p := from;
    while p < |md.subject|
      invariant from <= p && (p <= |md.subject| || p == from)
      invariant forall k :: from <= k < p && k < |md.subject| ==> !IsLetter(md.tables, l, md.subject[k])
    {
      if IsLetter(md.tables, l, md.subject[p]) {
        return;
      }
      p := p + 1;
    }
  }

  predicate HasFirst(md: MatchData, h: Hints) {
    !Anchored(md, h) && h.firstChar.Some?
  }

  lemma ReqEarlier(md: MatchData, h: Hints, p: nat, q: nat)
    requires p <= q
    ensures ReqFrom(md, h, q) ==> ReqFrom(md, h, p)
  {
  }

  /** The subject is too short, or the required character is missing, for this and all later start points. */
  lemma NoneAfter(md: MatchData, h: Hints, cs: nat)
    requires HintsHold(md, h) && NoneBefore(md, h, cs)
    requires || (h.minLength.Some? && |md.subject| - cs < h.minLength.value)
             || (h.reqChar.Some? && !ReqFrom(md, h, cs + if HasFirst(md, h) then 1 else 0))
    ensures SearchNone(md, h)
  {
    hide MatchAt, ReqFrom;
    forall k: nat | Candidate(md, h, k) && cs <= k
      ensures !MatchAt(md, k)
    {
      ReqEarlier(md, h, cs + if HasFirst(md, h) then 1 else 0, k + if h.firstChar.Some? then 1 else 0);
    }
  }

  /** Where the required character was last found, or a place before the first start point. */
  ghost predicate ReqPtrOk(md: MatchData, h: Hints, reqPtr: int) {
    || reqPtr < md.startOffset
    || (reqPtr < |md.subject| && h.reqChar.Some? && IsLetter(md.tables, h.reqChar.value, md.subject[reqPtr]))
  }

  /**
   The optimisations at one turn (pcre_dfa_exec.c:3434-3608): the next start point to try, unless it
   is known that there is none.  A search for the required character is left out only if it would succeed.
   */
  method NextStart(md: MatchData, h: Hints, from: nat, reqPtr0: int) returns (some: bool, cs: nat, reqPtr: int)
    requires HintsHold(md, h) && NoneBefore(md, h, from) && Candidate(md, h, from)
    requires ReqPtrOk(md, h, reqPtr0) && NoPartialBefore(md, h, from)
    ensures ReqPtrOk(md, h, reqPtr)
    ensures some ==> from <= cs && Candidate(md, h, cs) && NoneBefore(md, h, cs) && NoPartialBefore(md, h, cs)
    ensures !some ==> SearchNone(md, h) && NoPartialBefore(md, h, |md.subject| + 1)
  {
    hide MatchAt, HintsHold, NoneBefore, SearchNone, NoPartialBefore;
    reqPtr := reqPtr0;
    cs := Skip(md, h, from);
    if h.startOptimize && !md.opts.partialHard && !md.opts.partialSoft {
      NoPartials(md, h, |md.subject| + 1);
      if h.minLength.Some? && |md.subject| - cs < h.minLength.value {
        NoneAfter(md, h, cs);
        return false, cs, reqPtr;
      }
      if h.reqChar.Some? && |md.subject| - cs < REQ_BYTE_MAX {
        var p := cs + if HasFirst(md, h) then 1 else 0;
        if p > reqPtr {
          p := FindReq(md, h.reqChar.value, p);
          if p >= |md.subject| {
            NoneAfter(md, h, cs);
            return false, cs, reqPtr;
          }
          reqPtr := p;
        } else {
          assert ReqFrom(md, h, p);
        }
      }
    }
    some := true;
  }

  // ---------- The search ----------

  /** What a run at one start point says about matching there. */
  lemma OutcomeHere(md: MatchData, callees: set<nat>, cs: nat, startUsed: nat, offsets: seq<int>, ws: seq<int>,
                    rc: int, ends: seq<nat>)
    requires ValidCode(md.code, callees) && 0 in callees
    requires Outcome(md, callees, 0, cs, 0, startUsed, States(Targets(md.code, 0)), offsets, ws, rc, ends)
    ensures forall q: nat :: q in ends <==> CallMatches(md, 0, cs, q)
    ensures MatchAt(md, cs) <==> ends != []
    ensures rc == PCRE_ERROR_NOMATCH ==> ends == []
  {
    hide CallMatches, Suspended, PartialMatch, FrontReaches, Region, Targets;
    IsCallableCallee(md.code, callees, 0);
    CallExact(md, 0, cs, ends);
    if ends != [] {
      assert ends[0] in ends;
    }
  }

  /** The result of a search: the first start point that matches, and all its matches. */
  ghost predicate SearchFound(md: MatchData, h: Hints, cs: nat, offsets: seq<int>, rc: int, ends: seq<nat>) {
    && Candidate(md, h, cs) && NoneBefore(md, h, cs)
    && Increasing(ends) && ends != []
    && (forall q: nat :: q in ends <==> CallMatches(md, 0, cs, q))
    && Window(offsets, cs, ends)
    && rc == ReturnCode(|ends|, |offsets| / 2)
  }

  /**
   A partial match: some state could go on if the subject did, and the matches there are do not count.  It is reported
   by its start and the end of the subject, and leaves a workspace to go on from.
   */
  ghost predicate SearchPartial(md: MatchData, h: Hints, callees: set<nat>, cs: nat, first: seq<State>,
                               offsets: seq<int>, ws: seq<int>, ends: seq<nat>) {
    && Candidate(md, h, cs) && (!md.opts.restart ==> NoneBefore(md, h, cs))
    && PartialMatch(md, ChainEnd(md.code, 0), cs, first, cs, ends == [])
    && ExactEnds(md, ChainEnd(md.code, 0), cs, first, ends)
    && Suspended(md, callees, 0, cs, first, ws)
    && (|offsets| >= 2 ==> offsets[0] == cs && offsets[1] == |md.subject|)
    && (|offsets| > 2 ==> offsets[2] == cs)
  }

  /**
   No partial match has been passed over: a result is not partial only if the run from its start is not and, if the hints
   allow for partial matches, no earlier one is.
   */
  ghost predicate PartialsTried(md: MatchData, h: Hints, cs: nat, rc: int) {
    && (rc == PCRE_ERROR_NOMATCH ==> NoPartialBefore(md, h, |md.subject| + 1))
    && (rc >= 0 ==> !PartialAt(md, cs, false))
    && (rc >= 0 || rc == PCRE_ERROR_PARTIAL ==> NoPartialBefore(md, h, cs))
  }

  /** The plausibility check on a workspace to restart from (pcre_dfa_exec.c:3231-3236). */
  predicate RestartPlausible(ws: seq<int>)
    requires |ws| >= 2
  {
    (ws[0] == 0 || ws[0] == 1) && 1 <= ws[1] <= (|ws| - 2) / 3
  }

  lemma SearchStarts(md: MatchData, h: Hints, callees: set<nat>)
    requires md.startOffset <= |md.subject|
    ensures Candidate(md, h, md.startOffset) && NoneBefore(md, h, md.startOffset)
    ensures NoPartialBefore(md, h, md.startOffset)
    ensures ReqPtrOk(md, h, md.startOffset - 1) && ChainOfCalls(md, callees, [])
  {
  }

  /** A run that reports matches has the result of the search. */
  lemma RunFound(md: MatchData, h: Hints, callees: set<nat>, cs: nat, offsets: seq<int>, ws: seq<int>,
                 rc: int, ends: seq<nat>)
    requires ValidCode(md.code, callees) && 0 in callees && Candidate(md, h, cs) && NoneBefore(md, h, cs)
    requires Outcome(md, callees, 0, cs, 0, cs, States(Targets(md.code, 0)), offsets, ws, rc, ends)
    requires rc >= 0
    ensures SearchFound(md, h, cs, offsets, rc, ends) && !PartialAt(md, cs, false)
  {
    hide CallMatches, Suspended, PartialMatch, FrontReaches, Targets, ValidCode, MatchAt, Candidate, NoneBefore;
    OutcomeHere(md, callees, cs, cs, offsets, ws, rc, ends);
  }

  /** A run that reports no match has tried its start point. */
  lemma RunNone(md: MatchData, h: Hints, callees: set<nat>, cs: nat, offsets: seq<int>, ws: seq<int>, ends: seq<nat>)
    requires ValidCode(md.code, callees) && 0 in callees && NoneBefore(md, h, cs) && NoPartialBefore(md, h, cs)
    requires Outcome(md, callees, 0, cs, 0, cs, States(Targets(md.code, 0)), offsets, ws, PCRE_ERROR_NOMATCH, ends)
    ensures NoneBefore(md, h, cs + 1) && NoPartialBefore(md, h, cs + 1)
  {
    hide MatchAt, Finished, Suspended, PartialMatch, Targets, ValidCode;
    OutcomeHere(md, callees, cs, cs, offsets, ws, PCRE_ERROR_NOMATCH, ends);
    assert !PartialAt(md, cs, true);
  }

  lemma AllTried(md: MatchData, h: Hints, cs: nat)
    requires NoneBefore(md, h, cs + 1) && Candidate(md, h, cs) && NoPartialBefore(md, h, cs + 1)
    requires Anchored(md, h) || (h.firstLine && IsNewline(md, cs)) || cs == |md.subject|
    ensures SearchNone(md, h) && NoPartialBefore(md, h, |md.subject| + 1)
  {
    hide MatchAt, PartialAt;
  }

  lemma NextCandidate(md: MatchData, h: Hints, cs: nat)
    requires Candidate(md, h, cs) && cs < |md.subject|
    requires !Anchored(md, h) && !(h.firstLine && IsNewline(md, cs))
    ensures Candidate(md, h, cs + 1)
  {
  }

  lemma CandidateInside(md: MatchData, h: Hints, cs: nat)
    requires Candidate(md, h, cs)
    ensures md.startOffset <= cs <= |md.subject|
    ensures Anchored(md, h) ==> cs == md.startOffset
  {
  }

  /** A partial match leaves a workspace to go on from. */
  lemma RunPartial(md: MatchData, h: Hints, callees: set<nat>, cs: nat, first: seq<State>, offsets: seq<int>,
                   ws: seq<int>, ends: seq<nat>, after: seq<int>)
    requires Candidate(md, h, cs) && NoneBefore(md, h, cs)
    requires Outcome(md, callees, 0, cs, 0, cs, first, offsets, ws, PCRE_ERROR_PARTIAL, ends)
    requires |after| >= 2 ==> after[0] == cs && after[1] == |md.subject|
    requires |after| > 2 ==> after[2] == cs
    ensures md.opts.partialHard || md.opts.partialSoft
    ensures SearchPartial(md, h, callees, cs, first, after, ws, ends)
  {
    hide ExactEnds, Suspended, CouldContinue, Candidate, NoneBefore;
  }

  lemma RunResumed(md: MatchData, callees: set<nat>, cs: nat, first: seq<State>, offsets: seq<int>,
                   ws: seq<int>, rc: int, ends: seq<nat>)
    requires Outcome(md, callees, 0, cs, 0, cs, first, offsets, ws, rc, ends)
    ensures Finished(md, 0, cs, first, offsets, rc, ends)
  {
  }

  /**
   Searches for the first start point that matches.  If the hints are true of the pattern, they make no
   difference: a result is the one of the first candidate that matches at all, found by trying each
   in turn; and no match is reported exactly if no candidate matches.
   */
  method PcreDfaExec(md: MatchData, h: Hints, offsets: array<int>, workspace: array<int>, ghost callees: set<nat>)
    returns (rc: int, ghost cs: nat, ghost ends: seq<nat>)
    requires ValidCode(md.code, callees) && 0 in callees && HintsHold(md, h)
    requires offsets != workspace
    requires md.opts.restart && workspace.Length >= 20 && RestartPlausible(workspace[..]) ==>
               SavedOk(workspace[..]) && Resumable(md.code, callees, 0, Saved(workspace[..]))
    modifies offsets, workspace
    ensures workspace.Length < 20 ==> rc == PCRE_ERROR_DFA_WSSIZE
    ensures rc == PCRE_ERROR_BADOFFSET <==> workspace.Length >= 20 && md.startOffset > |md.subject|
    ensures rc == PCRE_ERROR_DFA_BADRESTART <==>
            (workspace.Length >= 20 && md.startOffset <= |md.subject| && md.opts.restart &&
             !RestartPlausible(old(workspace[..])))
    ensures || IsFailure(rc) || rc == PCRE_ERROR_BADOFFSET || rc == PCRE_ERROR_DFA_BADRESTART
            || rc == PCRE_ERROR_PARTIAL || rc >= PCRE_ERROR_NOMATCH
    ensures workspace.Length >= 20 && RunFits(md, 0, Capacity(workspace.Length)) ==> !IsFailure(rc)
    ensures IsFailure(rc) && workspace.Length >= 20 ==>
              && (md.opts.restart ==> old(SavedOk(workspace[..]))) && Candidate(md, h, cs) && NoneBefore(md, h, cs)
              && Faulty(md, 0, cs, old(FirstStates(md, 0, md.opts.restart, workspace[..])), [],
                        Capacity(workspace.Length), rc)
    ensures rc >= 0 || rc == PCRE_ERROR_PARTIAL ==>
              && (md.opts.restart ==> old(workspace.Length >= 20 && SavedOk(workspace[..])))
              && Safe(md, 0, cs, old(FirstStates(md, 0, md.opts.restart, workspace[..])), [])
    ensures rc == PCRE_ERROR_NOMATCH && !md.opts.restart ==> SearchNone(md, h)
    ensures rc >= 0 && !md.opts.restart ==> SearchFound(md, h, cs, offsets[..], rc, ends)
    ensures rc == PCRE_ERROR_PARTIAL && !md.opts.partialHard ==> md.opts.partialSoft && ends == []
    ensures rc == PCRE_ERROR_PARTIAL ==>
              && (md.opts.partialHard || md.opts.partialSoft)
              && (md.opts.restart ==> old(workspace.Length >= 20 && SavedOk(workspace[..])))
              && SearchPartial(md, h, callees, cs, old(FirstStates(md, 0, md.opts.restart, workspace[..])), offsets[..],
                              workspace[..], ends)
    ensures !md.opts.restart ==> PartialsTried(md, h, cs, rc)
    ensures rc >= PCRE_ERROR_NOMATCH && md.opts.restart ==>
              && old(workspace.Length >= 20 && SavedOk(workspace[..])) && cs == md.startOffset
              && Finished(md, 0, cs, old(Saved(workspace[..])), offsets[..], rc, ends)
  {
    hide CallMatches, Outcome, HintsHold, NoneBefore, Candidate, SearchNone, MatchAt, ReqPtrOk, SearchFound, SearchPartial,
         NoPartialBefore, PartialAt, Targets, Resumable, ValidCode, Saved, SavedOk, Finished, ChainOfCalls,
         Faulty, Safe, Suspended, Window, PartialMatch, RunFits;
    cs, ends := 0, [];
    if workspace.Length < 20 { return PCRE_ERROR_DFA_WSSIZE, cs, ends; }
    if md.startOffset > |md.subject| { return PCRE_ERROR_BADOFFSET, cs, ends; }
    if md.opts.restart && !RestartPlausible(workspace[..]) { return PCRE_ERROR_DFA_BADRESTART, cs, ends; }
    var mb := new MatchBlock(md);
    var current := md.startOffset;
    var reqPtr: int := current - 1;
    SearchStarts(md, h, callees);
    while true
      invariant md.startOffset <= current <= |md.subject| && mb.data == md && mb.recursive == []
      invariant Candidate(md, h, current) && NoneBefore(md, h, current) && NoPartialBefore(md, h, current)
      invariant ReqPtrOk(md, h, reqPtr)
      invariant md.opts.restart ==> workspace[..] == old(workspace[..])
      decreases |md.subject| - current
    {
      if !md.opts.restart {
        var some;
        some, current, reqPtr := NextStart(md, h, current, reqPtr);
        if !some { return PCRE_ERROR_NOMATCH, cs, ends; }
      }
      CandidateInside(md, h, current);
      mb.startUsed := current;
      ghost var before := workspace[..];
      rc, ends := InternalDfaExec(mb, 0, current, offsets, workspace, 0, callees);
      cs := current;
      ghost var reported := offsets[..];
      if rc != PCRE_ERROR_NOMATCH || Anchored(md, h) {
        if rc == PCRE_ERROR_PARTIAL && offsets.Length >= 2 {
          offsets[0] := mb.startUsed;
          offsets[1] := |md.subject|;
          if offsets.Length > 2 {
            offsets[2] := current;
          }
        }
        if !IsFailure(rc) {
          Concluded(md, h, callees, cs, before, reported, offsets[..], workspace[..], rc, ends);
        }
        return;
      }
      RunNone(md, h, callees, current, reported, workspace[..], ends);
      if current == |md.subject| || (h.firstLine && IsNewline(md, current)) {
        AllTried(md, h, current);
        return;
      }
      NextCandidate(md, h, current);
      current := current + 1;
    }
  }

  /** What the last run means for the search. */
  lemma Concluded(md: MatchData, h: Hints, callees: set<nat>, cs: nat, before: seq<int>, reported: seq<int>,
                  after: seq<int>, ws: seq<int>, rc: int, ends: seq<nat>)
    requires ValidCode(md.code, callees) && 0 in callees && Candidate(md, h, cs) && NoneBefore(md, h, cs)
    requires NoPartialBefore(md, h, cs)
    requires md.opts.restart ==> SavedOk(before)
    requires Outcome(md, callees, 0, cs, 0, cs, FirstStates(md, 0, md.opts.restart, before), reported, ws, rc, ends)
    requires rc == PCRE_ERROR_NOMATCH ==> Anchored(md, h)
    requires rc == PCRE_ERROR_PARTIAL ==>
               && (|after| >= 2 ==> after[0] == cs && after[1] == |md.subject|)
               && (|after| > 2 ==> after[2] == cs)
    requires rc != PCRE_ERROR_PARTIAL ==> after == reported
    ensures rc == PCRE_ERROR_NOMATCH && !md.opts.restart ==> SearchNone(md, h)
    ensures rc >= 0 && !md.opts.restart ==> SearchFound(md, h, cs, after, rc, ends)
    ensures rc == PCRE_ERROR_PARTIAL ==>
              && (md.opts.partialHard || md.opts.partialSoft)
              && SearchPartial(md, h, callees, cs, FirstStates(md, 0, md.opts.restart, before), after, ws, ends)
    ensures !md.opts.restart ==> PartialsTried(md, h, cs, rc)
    ensures rc >= PCRE_ERROR_NOMATCH && md.opts.restart ==>
              cs == md.startOffset && Finished(md, 0, cs, Saved(before), after, rc, ends)
  {
    hide CallMatches, Outcome, HintsHold, NoneBefore, Candidate, SearchNone, MatchAt, SearchFound, SearchPartial,
         NoPartialBefore, PartialAt, Targets, ValidCode, Saved, SavedOk, Finished;
    var first := FirstStates(md, 0, md.opts.restart, before);
    CandidateInside(md, h, cs);
    if rc == PCRE_ERROR_PARTIAL {
      RunPartial(md, h, callees, cs, first, reported, ws, ends, after);
    } else if md.opts.restart {
      RunResumed(md, callees, cs, first, reported, ws, rc, ends);
    } else if rc == PCRE_ERROR_NOMATCH {
      RunNone(md, h, callees, cs, reported, ws, ends);
      AllTried(md, h, cs);
    } else if rc >= 0 {
      RunFound(md, h, callees, cs, reported, ws, rc, ends);
    }
  }
}
