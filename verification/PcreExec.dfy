/** The loops of `internal_dfa_exec` and its recursion. */
module PcreExec {
  import opened Bytes
  import opened PcreCode
  import opened PcreScan
  import opened PcreVectors
  import opened PcreStep
  import opened PcreDfa
  import opened PcreRoom

  // ---------- Subpattern calls ----------

  /** For each match of a called bracket from p: at once if it is empty, otherwise after waiting. */
  function CallActs(next: nat, p: nat, ends: seq<nat>): seq<State> {
    if ends == [] then [] else
    var q := ends[|ends| - 1];
    CallActs(next, p, ends[..|ends| - 1]) + if q <= p then [State(next, 0, 0)] else []
  }

  function CallNews(next: nat, p: nat, ends: seq<nat>): seq<State> {
    if ends == [] then [] else
    var q := ends[|ends| - 1];
    CallNews(next, p, ends[..|ends| - 1]) + if q > p then [State(next, 0, q - p - 1)] else []
  }

  lemma {:induction false} CallStates(next: nat, p: nat, ends: seq<nat>, y: State)
    requires forall q <- ends :: p <= q
    ensures y in CallActs(next, p, ends) <==> y == State(next, 0, 0) && p in ends
    ensures y in CallNews(next, p, ends) <==> y.off == next && y.count == 0 && p + 1 + y.wait in ends
    decreases |ends|
  {
    if ends != [] {
      var rest := ends[..|ends| - 1];
      assert ends == rest + [ends[|ends| - 1]];
      assert forall q <- rest :: q in ends;
      assert ends[|ends| - 1] in ends;
      CallStates(next, p, rest, y);
    }
  }

  lemma CallIsEdges(md: MatchData, end: nat, p: nat, o: nat, ends: seq<nat>)
    requires Decode(md.code, o).Call? && o != end && p <= |md.subject|
    requires forall q :: q in ends <==> CallMatches(md, Decode(md.code, o).callpat, p, q)
    requires forall q <- ends :: p <= q <= |md.subject|
    ensures var next := Decode(md.code, o).next;
            Edges(md, end, p, State(o, 0, 0), CallActs(next, p, ends), CallNews(next, p, ends))
  {
    hide Decode, CallMatches;
    var next := Decode(md.code, o).next;
    var x := State(o, 0, 0);
    forall y: State
      ensures ActEdge(md, end, p, x, y) <==> y in CallActs(next, p, ends)
    {
      CallStates(next, p, ends, y);
    }
    forall y: State
      ensures NewEdge(md, end, p, x, y) <==> y in CallNews(next, p, ends)
    {
      CallStates(next, p, ends, y);
    }
  }

  lemma OneMoreCallState(next: nat, p: nat, ends: seq<nat>, k: nat)
    requires k < |ends|
    ensures CallActs(next, p, ends[..k + 1]) ==
            CallActs(next, p, ends[..k]) + if ends[k] <= p then [State(next, 0, 0)] else []
    ensures CallNews(next, p, ends[..k + 1]) ==
            CallNews(next, p, ends[..k]) + if ends[k] > p then [State(next, 0, ends[k] - p - 1)] else []
  {
    assert ends[..k + 1][..k] == ends[..k];
  }

  lemma {:induction false} CallsGrow(next: nat, p: nat, ends: seq<nat>, k: nat)
    requires k <= |ends|
    ensures |CallActs(next, p, ends[..k])| <= |CallActs(next, p, ends)|
    ensures |CallNews(next, p, ends[..k])| <= |CallNews(next, p, ends)|
    decreases |ends|
  {
    if k == |ends| {
      assert ends[..k] == ends;
    } else {
      var rest := ends[..|ends| - 1];
      assert rest[..k] == ends[..k];
      CallsGrow(next, p, rest, k);
    }
  }

  /** A call makes at most one state active, and leaves no more for later than it has matches. */
  lemma {:induction false} CallAddsFew(next: nat, p: nat, ends: seq<nat>)
    requires Increasing(ends) && forall k :: 0 <= k < |ends| ==> p <= ends[k]
    ensures |CallActs(next, p, ends)| <= 1 && |CallNews(next, p, ends)| <= |ends|
    decreases |ends|
  {
    if ends != [] {
      var rest := ends[..|ends| - 1];
      CallAddsFew(next, p, rest);
      assert rest != [] ==> p <= ends[0] < ends[|ends| - 1];
    }
  }

  lemma {:induction false} EndsFew(ends: seq<nat>, n: nat)
    requires Increasing(ends) && forall k :: 0 <= k < |ends| ==> ends[k] <= n
    ensures |ends| <= n + 1
    decreases |ends|
  {
    if |ends| > 1 {
      var m := |ends| - 1;
      assert forall k :: 0 <= k < m ==> ends[k] < ends[m];
      assert ends[0] < ends[m];
      EndsFew(ends[..m], ends[m] - 1);
    }
  }

  /** Adds the states for the matches a call has found (pcre_dfa_exec.c:2843-2862). */
  method AddCallStates(v: StateVectors, next: nat, p: nat, found: array<int>, n: nat, ghost ends: seq<nat>)
    returns (ok: bool)
    requires v.Valid() && found != v.ws && n == |ends| <= found.Length / 2 && next > 0
    requires Window(found[..], p, ends)
    modifies v`activeCount, v`newCount, v.ws
    ensures Added(v, ok, CallActs(next, p, ends), CallNews(next, p, ends))
  {
    hide CallActs, CallNews;
    var k := n;
    ok := true;
    NoCallStates(next, p, ends[..0]);
    while k > 0
      invariant 0 <= k <= n && v.Valid() && v.Grown() && found[..] == old(found[..])
      invariant v.Active() == old(v.Active()) + CallActs(next, p, ends[..n - k])
      invariant v.New() == old(v.New()) + CallNews(next, p, ends[..n - k])
    {
      k := k - 1;
      assert found[..][2 * k] == p && found[..][2 * k + 1] == ends[n - 1 - k];
      var charcount := found[2 * k + 1] - found[2 * k];
      OneMoreCallState(next, p, ends, n - 1 - k);
      CallsGrow(next, p, ends, n - k);
      if charcount > 0 {
        ok := v.AddWaiting(next, 0, charcount - 1);
      } else {
        ok := v.AddActive(next, 0);
      }
      if !ok { return; }
    }
    assert ends[..n] == ends;
  }

  /** What a run of the bracket at c from start may take for granted. */
  ghost predicate RunsFrom(md: MatchData, callees: set<nat>, c: nat, start: nat) {
    ValidCode(md.code, callees) && c in callees && start <= |md.subject|
  }

  /** The states a run starts with: those in the workspace, or the bracket's branches. */
  ghost function FirstStates(md: MatchData, c: nat, resumes: bool, ws: seq<int>): seq<State>
    requires resumes ==> SavedOk(ws)
  {
    if resumes then Saved(ws) else States(Targets(md.code, c))
  }

  /** States from which a run of the bracket at c can be resumed at the start of a subject. */
  ghost predicate Resumable(code: seq<byte>, callees: set<nat>, c: nat, xs: seq<State>) {
    && (forall x <- xs :: x.wait == 0)
    && exists region: set<nat> :: Region(code, callees, c, region) && StatesOk(code, region, xs)
  }

  // ---------- The matcher ----------

  /** What a run that has not failed has found, and how it reports it. */
  ghost predicate Finished(md: MatchData, c: nat, start: nat, first: seq<State>, offsets: seq<int>, rc: int,
                           ends: seq<nat>) {
    && ExactEnds(md, ChainEnd(md.code, c), start, first, ends)
    && Window(offsets, start, ends)
    && (rc != PCRE_ERROR_PARTIAL ==> rc == ReturnCode(|ends|, |offsets| / 2))
  }

  /** The workspace after a partial match: its states stand for the first states on any longer subject. */
  ghost predicate Suspended(md: MatchData, callees: set<nat>, c: nat, start: nat, first: seq<State>, ws: seq<int>) {
    && SavedOk(ws)
    && Resumable(md.code, callees, c, Saved(ws))
    && Carries(md, ChainEnd(md.code, c), start, first, |md.subject|, Saved(ws))
  }

  ghost predicate IsFailure(rc: int) {
    rc == PCRE_ERROR_DFA_WSSIZE || rc == PCRE_ERROR_DFA_RECURSE || rc == PCRE_ERROR_RECURSELOOP
  }

  /** The whole outcome of a run at the given recursion level that started with the states `first`. */
  ghost predicate Outcome(md: MatchData, callees: set<nat>, c: nat, start: nat, rlevel: nat, startUsed: nat,
                          first: seq<State>, offsets: seq<int>, ws: seq<int>, rc: int, ends: seq<nat>) {
    && Finished(md, c, start, first, offsets, rc, ends)
    && (rc == PCRE_ERROR_PARTIAL <==>
          (rlevel == 0 && PartialMatch(md, ChainEnd(md.code, c), start, first, startUsed, ends == [])))
    && (rc == PCRE_ERROR_PARTIAL ==> Suspended(md, callees, c, start, first, ws))
  }

  /** ADD_NEW for every branch of the bracket (pcre_dfa_exec.c:555-565). */
  method PushBranches(v: StateVectors, code: seq<byte>, c: nat) returns (ok: bool)
    requires v.Valid() && v.New() == [] && IsCallable(code, c)
    modifies v`newCount, v.ws
    ensures v.Valid() && (ok ==> v.New() == States(Targets(code, c)))
    ensures !ok ==> |Targets(code, c)| >= v.cap
  {
    hide AltStarts, ChainOk, ChainEnd, Get, States, Walked, Decode;
    var first := c + OpenerLength(code[c]);
    BranchTargets(code, c);
    ok := v.AddNew(first, 0);
    if !ok { return; }
    var e := c + Get(code, c + 1);
    ghost var done: seq<nat> := [first];
    WalkStarts(code, c, first);
    while At(code, e) == OP_ALT
      invariant v.Valid() && Walked(code, c, first, e, done)
      invariant v.New() == States(done)
      decreases |code| - e
    {
      WalkInside(code, c, first, e, done);
      WalkGoesOn(code, c, first, e, done);
      ok := v.AddNew(e + 3, 0);
      if !ok { return; }
      done := done + [e + 3];
      e := e + Get(code, e + 1);
    }
    WalkInside(code, c, first, e, done);
    WalkEnds(code, c, first, e, done);
  }

  lemma BranchTargets(code: seq<byte>, c: nat)
    requires IsCallable(code, c)
    ensures Targets(code, c) == [c + OpenerLength(code[c])] + AltStarts(code, c)
  {
    hide AltStarts, ChainOk, ChainEnd, Get, DecodeClass, DecodeRepeat;
  }

  /** The branches are good states to start with. */
  lemma BranchesOk(md: MatchData, callees: set<nat>, c: nat, region: set<nat>, start: nat)
    requires Region(md.code, callees, c, region) && start <= |md.subject|
    ensures StatesOk(md.code, region, States(Targets(md.code, c)))
    ensures WaitsOk(|md.subject|, start, States(Targets(md.code, c)))
  {
    hide Decode;
    var ts := Targets(md.code, c);
    forall x | x in States(ts)
      ensures x.off in region && CountOk(md.code, x.off, x.count) && x.wait == 0
    {
      var k :| 0 <= k < |ts| && x == State(ts[k], 0, 0);
      assert ts[k] in ts;
    }
  }

  /**
   Runs the bracket at c from subject position start.  A run at recursion level 0 resumes the states
   in the workspace if the options say so.  Unless it fails, it reports exactly the matches, and a
   partial match exactly if one is wanted and some state could go on at the end of the subject.
   */
  method InternalDfaExec(mb: MatchBlock, c: nat, start: nat, offsets: array<int>, workspace: array<int>, rlevel: nat,
                         ghost callees: set<nat>)
    returns (rc: int, ghost ends: seq<nat>)
    requires RunsFrom(mb.data, callees, c, start)
    requires offsets != workspace && workspace.Length >= 20
    requires rlevel == 0 && mb.data.opts.restart ==>
               SavedOk(workspace[..]) && Resumable(mb.data.code, callees, c, Saved(workspace[..]))
    requires rlevel == |mb.recursive| && ChainOfCalls(mb.data, callees, mb.recursive)
    modifies mb`recursive, offsets, workspace
    ensures mb.recursive == old(mb.recursive)
    ensures IsFailure(rc) || rc == PCRE_ERROR_PARTIAL || rc >= PCRE_ERROR_NOMATCH
    ensures !IsFailure(rc) ==>
              Outcome(mb.data, callees, c, start, rlevel, mb.startUsed,
                      old(FirstStates(mb.data, c, rlevel == 0 && mb.data.opts.restart, workspace[..])),
                      offsets[..], workspace[..], rc, ends)
    ensures rc == PCRE_ERROR_PARTIAL && !mb.data.opts.partialHard ==> mb.data.opts.partialSoft && ends == []
    ensures IsFailure(rc) ==>
              Faulty(mb.data, c, start, old(FirstStates(mb.data, c, rlevel == 0 && mb.data.opts.restart, workspace[..])),
                     old(mb.recursive), Capacity(workspace.Length), rc)
    ensures !IsFailure(rc) ==>
              Safe(mb.data, c, start, old(FirstStates(mb.data, c, rlevel == 0 && mb.data.opts.restart, workspace[..])),
                   old(mb.recursive))
    ensures RunFits(mb.data, c, Capacity(workspace.Length)) ==> !IsFailure(rc)
    decreases Unused(mb.data, callees, mb.recursive), 7
  {
    ghost var region: set<nat> :| Region(mb.data.code, callees, c, region);
    ghost var first := FirstStates(mb.data, c, rlevel == 0 && mb.data.opts.restart, workspace[..]);
    if RunFits(mb.data, c, Capacity(workspace.Length)) {
      FitsNeverFails(mb.data, c, start, mb.recursive, Capacity(workspace.Length));
    }
    var v: StateVectors;
    if rlevel == 0 && mb.data.opts.restart {
      region :| Region(mb.data.code, callees, c, region) && StatesOk(mb.data.code, region, Saved(workspace[..]));
      v := new StateVectors.Resume(workspace);
    } else {
      v := new StateVectors(workspace);
      var ok := PushBranches(v, mb.data.code, c);
      if !ok {
        CrampedAtStart(mb.data, c, start, first, mb.recursive, v.cap);
        return PCRE_ERROR_DFA_WSSIZE, [];
      }
      BranchesOk(mb.data, callees, c, region, start);
    }
    var e := FollowLinks(mb.data.code, c);
    FrontFirst(mb.data, callees, c, region, start, v.New());
    rc, ends := AlongSubject(mb, v, c, e, start, offsets, rlevel, callees, region);
  }

  lemma FitsNeverFails(md: MatchData, c: nat, start: nat, calls: seq<(nat, nat)>, cap: nat)
    requires RunFits(md, c, cap)
    ensures forall rc: int :: !Faulty(md, c, start, States(Targets(md.code, c)), calls, cap, rc)
  {
    hide RunFits, Faulty, Targets;
    forall rc: int
      ensures !Faulty(md, c, start, States(Targets(md.code, c)), calls, cap, rc)
    {
      FitsIsSound(md, c, start, calls, cap, rc);
    }
  }

  /** Nothing is reached before the run starts. */
  lemma NotBefore(md: MatchData, end: nat, goal: nat, p: nat, front: seq<State>, q: nat)
    requires FrontReaches(md, end, goal, p, front, q)
    ensures p <= q
  {
    var k :| 0 <= k < |front| && Reaches(md, end, goal, ConfigOf(p, front[k]), q);
    var n: nat :| AnyAccepts(md, end, goal, ConfigOf(p, front[k]), q, n);
    ReachesForward(md, end, goal, ConfigOf(p, front[k]), q, n);
  }

  /** The ends of the matches found before position p. */
  ghost predicate ExactBefore(md: MatchData, end: nat, start: nat, first: seq<State>, p: nat, ends: seq<nat>) {
    && Increasing(ends)
    && (forall q: nat :: q in ends <==> (q < p && Recordable(md, start, q) && FrontReaches(md, end, end, start, first, q)))
    && (forall q <- ends :: start <= q <= |md.subject|)
  }

  /** The ends after the pass at p: p is added if the closing opcode is active. */
  ghost function WithEnd(md: MatchData, end: nat, start: nat, p: nat, act: seq<State>, ends: seq<nat>): seq<nat> {
    if AtGoal(act, end) && Recordable(md, start, p) then ends + [p] else ends
  }

  lemma ExactStep(md: MatchData, end: nat, start: nat, first: seq<State>, p: nat, front: seq<State>, act: seq<State>,
                  news: seq<State>, ends: seq<nat>)
    requires ExactBefore(md, end, start, first, p, ends) && start <= p <= |md.subject|
    requires Carries(md, end, start, first, p, front) && Scanned(md, end, p, front, act, news)
    ensures ExactBefore(md, end, start, first, p + 1, WithEnd(md, end, start, p, act, ends))
  {
    hide FrontReaches, Carries, Scanned, AtGoal, Recordable;
    CarriedHere(md, end, end, start, first, p, front, act, news);
    var more := WithEnd(md, end, start, p, act, ends);
    assert forall i :: 0 <= i < |ends| ==> ends[i] in ends;
    forall q: nat
      ensures q in more <==> (q < p + 1 && Recordable(md, start, q) && FrontReaches(md, end, end, start, first, q))
    {
      assert q in more <==> q in ends || (q == p && more != ends);
    }
  }

  lemma ExactNone(md: MatchData, end: nat, start: nat, first: seq<State>)
    ensures ExactBefore(md, end, start, first, start, [])
  {
    forall q: nat | FrontReaches(md, end, end, start, first, q)
      ensures start <= q
    {
      NotBefore(md, end, end, start, first, q);
    }
  }

  lemma ExactAtLast(md: MatchData, end: nat, start: nat, first: seq<State>, p: nat, front: seq<State>, act: seq<State>,
                    ends: seq<nat>)
    requires ExactBefore(md, end, start, first, p + 1, ends)
    requires Carries(md, end, start, first, p, front) && Scanned(md, end, p, front, act, [])
    ensures ExactEnds(md, end, start, first, ends)
  {
    hide FrontReaches, Carries, Scanned;
    forall q: nat | Recordable(md, start, q) && FrontReaches(md, end, end, start, first, q)
      ensures q in ends
    {
      if q > p {
        CarriedNowhere(md, end, end, start, first, p, front, act, q);
      }
    }
  }

  /** Some active state looks at a character. */
  ghost predicate SomeInspects(code: seq<byte>, act: seq<State>) {
    exists k :: 0 <= k < |act| && act[k].wait == 0 && Inspects(code, act[k].off)
  }

  /** At the last pass, the flag for partial matching means what it should. */
  lemma CouldContinueAtLast(md: MatchData, end: nat, start: nat, first: seq<State>, p: nat, front: seq<State>,
                            act: seq<State>)
    requires Carries(md, end, start, first, p, front) && Scanned(md, end, p, front, act, []) && p <= |md.subject|
    ensures CouldContinue(md, end, start, first) <==> p == |md.subject| && SomeInspects(md.code, act)
  {
    hide FrontReaches, Carries, Scanned, Inspects;
    if CouldContinue(md, end, start, first) {
      var o: nat :| Inspects(md.code, o) && FrontReaches(md, end, o, start, first, |md.subject|);
      if p < |md.subject| {
        CarriedNowhere(md, end, o, start, first, p, front, act, |md.subject|);
      } else {
        CarriedHere(md, end, o, start, first, p, front, act, []);
      }
    }
    if p == |md.subject| && SomeInspects(md.code, act) {
      var k :| 0 <= k < |act| && act[k].wait == 0 && Inspects(md.code, act[k].off);
      assert AtGoal(act, act[k].off);
      CarriedHere(md, end, act[k].off, start, first, p, front, act, []);
    }
  }

  /** If anything is active after a pass, something was active before it. */
  lemma StartedWithSome(md: MatchData, end: nat, p: nat, front: seq<State>, act: seq<State>, news: seq<State>)
    requires Scanned(md, end, p, front, act, news) && act != []
    ensures front != []
  {
    hide AnyEdge;
    var caused := ActCaused(md, end, p, act, 0);
  }

  lemma ScannedPrefix(md: MatchData, end: nat, p: nat, front: seq<State>, act: seq<State>, news: seq<State>)
    requires Scanned(md, end, p, front, act, news)
    ensures front <= act
  {
    hide ActEdge, NewEdge;
  }

  lemma SomeIsActive(code: seq<byte>, act: seq<State>)
    requires SomeInspects(code, act)
    ensures act != []
  {
  }

  lemma NoneLeft(n: nat, news: seq<State>)
    requires WaitsOk(n, n + 1, news)
    ensures news == []
  {
    if news != [] {
      WaitOfFirst(n, n + 1, news);
    }
  }

  lemma WaitOfFirst(n: nat, p: nat, xs: seq<State>)
    requires WaitsOk(n, p, xs) && xs != []
    ensures p + xs[0].wait <= n
  {
    assert xs[0] in xs;
  }

  /** The loop along the subject (pcre_dfa_exec.c:575-3142). */
  method AlongSubject(mb: MatchBlock, v: StateVectors, c: nat, endCode: nat, start: nat, offsets: array<int>,
                      rlevel: nat, ghost callees: set<nat>, ghost region: set<nat>)
    returns (rc: int, ghost ends: seq<nat>)
    requires RunsFrom(mb.data, callees, c, start) && Region(mb.data.code, callees, c, region)
    requires endCode == ChainEnd(mb.data.code, c)
    requires v.Valid() && offsets != v.ws
    requires StatesOk(mb.data.code, region, v.New()) && WaitsOk(|mb.data.subject|, start, v.New())
    requires FrontBounded(mb.data, endCode, start, v.New(), start, v.New())
    requires rlevel == |mb.recursive| && ChainOfCalls(mb.data, callees, mb.recursive)
    modifies mb`recursive, v, v.ws, offsets
    ensures mb.recursive == old(mb.recursive)
    ensures IsFailure(rc) || rc == PCRE_ERROR_PARTIAL || rc >= PCRE_ERROR_NOMATCH
    ensures !IsFailure(rc) ==>
              Outcome(mb.data, callees, c, start, rlevel, mb.startUsed, old(v.New()), offsets[..], v.ws[..], rc, ends)
    ensures rc == PCRE_ERROR_PARTIAL && !mb.data.opts.partialHard ==> mb.data.opts.partialSoft && ends == []
    ensures IsFailure(rc) ==> Faulty(mb.data, c, start, old(v.New()), old(mb.recursive), v.cap, rc)
    ensures !IsFailure(rc) ==> Safe(mb.data, c, start, old(v.New()), old(mb.recursive))
    decreases Unused(mb.data, callees, mb.recursive), 6
  {
    hide AnyEdge, Reaches, Decode, Region, CountOk, Scanned, FrontReaches, Pass, ChainEnd, Carries, Recordable,
         AtGoal, SomeInspects, CouldContinue, FrontBounded, SafeBefore, CallsSafe, Faulty, Safe, Bounded, WithEnd,
         Increasing;
    ghost var md := mb.data;
    ghost var first := v.New();
    var ptr := start;
    var matchCount := PCRE_ERROR_NOMATCH;
    ends := [];
    CarriesFirst(md, endCode, start, first);
    ExactNone(md, endCode, start, first);
    NoneSafeBefore(md, c, start, first, mb.recursive);
    while true
      invariant start <= ptr <= |md.subject| && v.Valid() && mb.recursive == old(mb.recursive)
      invariant StatesOk(md.code, region, v.New()) && WaitsOk(|md.subject|, ptr, v.New())
      invariant Carries(md, endCode, start, first, ptr, v.New())
      invariant FrontBounded(md, endCode, start, first, ptr, v.New())
      invariant SafeBefore(md, c, start, first, ptr, mb.recursive)
      invariant ExactBefore(md, endCode, start, first, ptr, ends)
      invariant matchCount == ReturnCode(|ends|, offsets.Length / 2) && Window(offsets[..], start, ends)
      decreases |md.subject| - ptr
    {
      v.Swap();
      ghost var front, before := v.Active(), ends;
      var err, couldContinue;
      err, matchCount, couldContinue, ends :=
        ScanPosition(mb, v, c, endCode, start, ptr, offsets, matchCount, rlevel, callees, region, first, ends);
      if err != 0 {
        return err, ends;
      }
      ghost var act, news := v.Active(), v.New();
      ExactStep(md, endCode, start, first, ptr, front, act, news, before);
      SafeHere(md, c, start, first, ptr, front, act, news, mb.recursive);
      if v.newCount == 0 {
        assert news == [];
        ExactAtLast(md, endCode, start, first, ptr, front, act, ends);
        SafeAtLast(md, c, start, first, ptr, front, act, mb.recursive);
        CouldContinueAtLast(md, endCode, start, first, ptr, front, act);
        rc := matchCount;
        if couldContinue {
          SomeIsActive(md.code, act);
          StartedWithSome(md, endCode, ptr, front, act, news);
        }
        if rlevel == 0 && couldContinue && 0 != v.ws[1] &&
           (mb.data.opts.partialHard || (mb.data.opts.partialSoft && matchCount < 0)) &&
           ptr >= |mb.data.subject| && ptr > mb.startUsed {
          rc := PCRE_ERROR_PARTIAL;
          ScannedPrefix(md, endCode, ptr, front, act, news);
          LeavesStates(md, callees, c, region, v, front);
        }
        return rc, ends;
      }
      if ptr == |md.subject| {
        NoneLeft(|md.subject|, news);
      }
      CarriesOn(md, endCode, start, first, ptr, front, act, news);
      BoundedLast(md, endCode, start, first, ptr, front, act, news);
      ptr := ptr + 1;
    }
  }

  /** No call that the run comes to before p is at fault. */
  ghost predicate SafeBefore(md: MatchData, c: nat, start: nat, first: seq<State>, p: nat, calls: seq<(nat, nat)>) {
    forall o: nat, q: nat :: q < p && CallReached(md, ChainEnd(md.code, c), start, first, o, q) ==>
      CallSafe(md, o, q, calls)
  }

  /** None of the calls that these states are at is at fault. */
  ghost predicate CallsSafe(md: MatchData, end: nat, p: nat, act: seq<State>, i: nat, calls: seq<(nat, nat)>) {
    forall o: nat :: GoalIn(act, o, i) && o != end && Decode(md.code, o).Call? ==> CallSafe(md, o, p, calls)
  }

  lemma NoneSafeBefore(md: MatchData, c: nat, start: nat, first: seq<State>, calls: seq<(nat, nat)>)
    ensures SafeBefore(md, c, start, first, start, calls)
  {
    hide FrontReaches, Decode, ChainEnd, CallSafe;
    forall o: nat, q: nat | q < start
      ensures !CallReached(md, ChainEnd(md.code, c), start, first, o, q)
    {
      if CallReached(md, ChainEnd(md.code, c), start, first, o, q) {
        NotBefore(md, ChainEnd(md.code, c), o, start, first, q);
      }
    }
  }

  lemma SafeHere(md: MatchData, c: nat, start: nat, first: seq<State>, p: nat, front: seq<State>, act: seq<State>,
                 news: seq<State>, calls: seq<(nat, nat)>)
    requires SafeBefore(md, c, start, first, p, calls)
    requires Carries(md, ChainEnd(md.code, c), start, first, p, front)
    requires Scanned(md, ChainEnd(md.code, c), p, front, act, news)
    requires CallsSafe(md, ChainEnd(md.code, c), p, act, |act|, calls)
    ensures SafeBefore(md, c, start, first, p + 1, calls)
  {
    hide FrontReaches, Decode, ChainEnd, CallSafe, Carries, Scanned;
    var end := ChainEnd(md.code, c);
    forall o: nat, q: nat | q < p + 1 && CallReached(md, end, start, first, o, q)
      ensures CallSafe(md, o, q, calls)
    {
      if q == p {
        CarriedHere(md, end, o, start, first, p, front, act, news);
      }
    }
  }

  lemma SafeAtLast(md: MatchData, c: nat, start: nat, first: seq<State>, p: nat, front: seq<State>, act: seq<State>,
                   calls: seq<(nat, nat)>)
    requires SafeBefore(md, c, start, first, p + 1, calls)
    requires Carries(md, ChainEnd(md.code, c), start, first, p, front)
    requires Scanned(md, ChainEnd(md.code, c), p, front, act, [])
    ensures Safe(md, c, start, first, calls)
  {
    hide FrontReaches, Decode, ChainEnd, CallSafe, Carries, Scanned;
    var end := ChainEnd(md.code, c);
    forall o: nat, q: nat | CallReached(md, end, start, first, o, q)
      ensures CallSafe(md, o, q, calls)
    {
      if q > p {
        CarriedNowhere(md, end, o, start, first, p, front, act, q);
      }
    }
  }

  /** More branches than there is room for. */
  lemma CrampedAtStart(md: MatchData, c: nat, start: nat, first: seq<State>, calls: seq<(nat, nat)>, cap: nat)
    requires |first| >= cap && start <= |md.subject|
    ensures Faulty(md, c, start, first, calls, cap, PCRE_ERROR_DFA_WSSIZE)
  {
    hide Overloaded, ChainEnd, LiveStates, NewFan;
    CrampedFirst(md, ChainEnd(md.code, c), start, first, cap);
    LoadIsFault(md, c, start, first, calls, cap);
  }

  lemma CrampedFirst(md: MatchData, end: nat, start: nat, first: seq<State>, cap: nat)
    requires |first| >= cap && start <= |md.subject|
    ensures Overloaded(md, end, start, first, cap)
  {
    hide LiveStates, NewFan;
    assert cap <= Needed(md, end, start, first, start);
  }

  /** The first states are live at the start. */
  lemma FrontFirst(md: MatchData, callees: set<nat>, c: nat, region: set<nat>, start: nat, first: seq<State>)
    requires Region(md.code, callees, c, region) && StatesOk(md.code, region, first) && start <= |md.subject|
    requires forall x <- first :: x.wait == 0
    ensures FrontBounded(md, ChainEnd(md.code, c), start, first, start, first)
  {
    hide Region, ChainEnd, CountOk, LiveStates, NewFan, Carries, FrontReaches, MeetsCall, Top;
    var end := ChainEnd(md.code, c);
    CarriesFirst(md, end, start, first);
    OffsetsInside(md.code, callees, c, region, first);
    TopIs(first);
    forall x | x in first
      ensures Live(md, end, start, first, start, x)
    {
      ReachedAtOnce(md, end, start, first, x);
    }
  }

  lemma ReachedAtOnce(md: MatchData, end: nat, start: nat, first: seq<State>, x: State)
    requires x in first && x.wait == 0
    ensures FrontReaches(md, end, x.off, start, first, start)
  {
    hide AnyEdge;
    var k :| 0 <= k < |first| && first[k] == x;
    assert AnyAccepts(md, end, x.off, ConfigOf(start, first[k]), start, 0);
  }

  lemma CarriesFirst(md: MatchData, end: nat, start: nat, first: seq<State>)
    ensures Carries(md, end, start, first, start, first)
  {
    hide FrontReaches, Continues;
  }

  /** The words left in the workspace after the last pass give back the states it began with. */
  lemma LeavesStates(md: MatchData, callees: set<nat>, c: nat, region: set<nat>, v: StateVectors, front: seq<State>)
    requires v.Valid() && front != [] && front <= v.Active() && v.ws[1] == |front|
    requires Region(md.code, callees, c, region) && StatesOk(md.code, region, front)
    requires WaitsOk(|md.subject|, |md.subject|, front)
    ensures SavedOk(v.ws[..]) && Saved(v.ws[..]) == front
    ensures Resumable(md.code, callees, c, front)
  {
    hide Region, CountOk;
    assert SavedBase(v.ws[..]) == v.active;
    forall k | 0 <= k < |front|
      ensures EntryOk(v.ws[..], v.active, k) && Entry(v.ws[..], v.active, k) == front[k]
    {
      assert v.Active()[k] == front[k];
    }
    assert Saved(v.ws[..]) == front;
  }

  // ---------- One position ----------

  /** Among the first i active states, one is at offset goal. */
  ghost predicate GoalIn(act: seq<State>, goal: nat, i: nat) {
    exists k :: 0 <= k < i && k < |act| && act[k].off == goal && act[k].wait == 0
  }

  ghost predicate InspectsIn(code: seq<byte>, act: seq<State>, i: nat) {
    exists k :: 0 <= k < i && k < |act| && act[k].wait == 0 && Inspects(code, act[k].off)
  }

  /** The flags after one more state. */
  lemma FlagsStep(code: seq<byte>, act: seq<State>, more: seq<State>, goal: nat, i: nat)
    requires i < |act| && act <= more
    ensures GoalIn(more, goal, i + 1) <==> GoalIn(act, goal, i) || (act[i].wait == 0 && act[i].off == goal)
    ensures InspectsIn(code, more, i + 1) <==>
            InspectsIn(code, act, i) || (act[i].wait == 0 && Inspects(code, act[i].off))
  {
    hide Inspects;
    assert more[i] == act[i];
    if GoalIn(act, goal, i) {
      var k :| 0 <= k < i && act[k].off == goal && act[k].wait == 0;
      assert more[k] == act[k];
    }
    if GoalIn(more, goal, i + 1) {
      var k :| 0 <= k < i + 1 && k < |more| && more[k].off == goal && more[k].wait == 0;
      assert more[k] == act[k];
    }
    if InspectsIn(code, act, i) {
      var k :| 0 <= k < i && act[k].wait == 0 && Inspects(code, act[k].off);
      assert more[k] == act[k];
    }
    if InspectsIn(code, more, i + 1) {
      var k :| 0 <= k < i + 1 && k < |more| && more[k].wait == 0 && Inspects(code, more[k].off);
      assert more[k] == act[k];
    }
  }

  lemma FlagsDuplicate(code: seq<byte>, act: seq<State>, goal: nat, i: nat, j: nat)
    requires j < i < |act| && act[j] == act[i]
    ensures GoalIn(act, goal, i + 1) <==> GoalIn(act, goal, i)
    ensures InspectsIn(code, act, i + 1) <==> InspectsIn(code, act, i)
  {
    FlagsStep(code, act, act, goal, i);
  }

  lemma PassFirst(md: MatchData, region: set<nat>, end: nat, p: nat, first: seq<State>)
    requires StatesOk(md.code, region, first) && WaitsOk(|md.subject|, p, first)
    ensures PassOk(md, region, end, p, first, first, [], 0)
  {
  }

  lemma PassWaited(md: MatchData, region: set<nat>, end: nat, p: nat, first: seq<State>, act: seq<State>,
                   news: seq<State>, i: nat)
    requires PassOk(md, region, end, p, first, act, news, i) && i < |act| && act[i].wait > 0
    ensures PassOk(md, region, end, p, first, act, news + [act[i].(wait := act[i].wait - 1)], i + 1)
  {
    hide CountOk, Pass;
    PassWaiting(md, end, p, first, act, news, i);
    assert act[i] in act;
  }

  lemma PassEnded(md: MatchData, callees: set<nat>, c: nat, region: set<nat>, p: nat, first: seq<State>,
                  act: seq<State>, news: seq<State>, i: nat)
    requires Region(md.code, callees, c, region) && p <= |md.subject|
    requires PassOk(md, region, ChainEnd(md.code, c), p, first, act, news, i) && i < |act|
    requires act[i].wait == 0 && act[i].off == ChainEnd(md.code, c)
    ensures PassOk(md, region, ChainEnd(md.code, c), p, first, act, news, i + 1)
  {
    hide CountOk, ChainEnd, Region, Decode;
    PassEnd(md, ChainEnd(md.code, c), p, first, act, news, i);
  }

  lemma PassRepeated(md: MatchData, region: set<nat>, end: nat, p: nat, first: seq<State>,
                     act: seq<State>, news: seq<State>, i: nat, j: nat)
    requires PassOk(md, region, end, p, first, act, news, i) && j < i < |act| && act[i] == act[j]
    ensures PassOk(md, region, end, p, first, act, news, i + 1)
  {
    hide Pass, StatesOk, WaitsOk;
    PassDuplicate(md, end, p, first, act, news, i, j);
  }

  /** What is known of the state at i of a pass. */
  lemma StateIsOk(md: MatchData, callees: set<nat>, c: nat, region: set<nat>, p: nat, first: seq<State>,
                  act: seq<State>, news: seq<State>, i: nat)
    requires Region(md.code, callees, c, region)
    requires PassOk(md, region, ChainEnd(md.code, c), p, first, act, news, i) && i < |act|
    ensures InstrOk(md.code, act[i].off) && CountOk(md.code, act[i].off, act[i].count)
    ensures act[i].off in region && act[i].off < |md.code|
    ensures Decode(md.code, act[i].off).Call? ==> Decode(md.code, act[i].off).callpat in callees
    ensures act[i].off == ChainEnd(md.code, c) ==> act[i].count == 0
    ensures Inspects(md.code, act[i].off) <==> LooksAtCharacter(md.code[act[i].off])
    ensures Decode(md.code, act[i].off).Call? <==> md.code[act[i].off] == OP_RECURSE
  {
    hide Pass, ChainEnd, DecodeRepeat, DecodeClass;
    assert act[i] in act;
    OpcodeKinds(md.code, act[i].off);
  }

  /** The opcode looks at a character, by the table at pcre_dfa_exec.c:192-257, for the opcodes of the model. */
  predicate LooksAtCharacter(op: byte) {
    OP_NOT_DIGIT <= op <= OP_ALLANY || OP_CHAR <= op < OP_CRSTAR || op == OP_CLASS || op == OP_NCLASS
  }

  lemma OpcodeKinds(code: seq<byte>, o: nat)
    requires o < |code| && !Decode(code, o).Stop?
    ensures Inspects(code, o) <==> LooksAtCharacter(code[o])
    ensures Decode(code, o).Call? <==> code[o] == OP_RECURSE
  {
    hide Get, ChainEnd, AltStarts, RepeatKind;
  }

  /** What acting on a state has added is what may follow it. */
  lemma PassStepped(md: MatchData, callees: set<nat>, c: nat, region: set<nat>, p: nat, first: seq<State>,
                    act: seq<State>, news: seq<State>, i: nat, o: nat, count: nat)
    requires Region(md.code, callees, c, region) && p <= |md.subject|
    requires PassOk(md, region, ChainEnd(md.code, c), p, first, act, news, i) && i < |act|
    requires act[i] == State(o, count, 0) && o != ChainEnd(md.code, c) && !Decode(md.code, o).Call?
    ensures PassOk(md, region, ChainEnd(md.code, c), p, first,
                   act + StepActs(md, p, o, count), news + StepNews(md, p, o, count), i + 1)
  {
    hide AnyEdge, CountOk, Pass, ChainEnd, Region, StepActs, StepNews, ActEdge, NewEdge, Decode;
    var end := ChainEnd(md.code, c);
    var acts, add := StepActs(md, p, o, count), StepNews(md, p, o, count);
    forall y: State
      ensures ActEdge(md, end, p, act[i], y) <==> y in acts
    {
      StepIsEdges(md, end, p, o, count, y);
    }
    forall y: State
      ensures NewEdge(md, end, p, act[i], y) <==> y in add
    {
      StepIsEdges(md, end, p, o, count, y);
    }
    AfterStep(md, callees, c, region, p, first, act, news, i, acts, add);
  }

  /** A run of a called bracket has found what the call matches. */
  lemma CallExact(md: MatchData, callpat: nat, p: nat, ends: seq<nat>)
    requires IsCallable(md.code, callpat)
    requires ExactEnds(md, ChainEnd(md.code, callpat), p, States(Targets(md.code, callpat)), ends)
    ensures forall q :: q in ends <==> CallMatches(md, callpat, p, q)
  {
    hide Accepts, Calls, ChainOk, ChainEnd, Recordable;
    var end := ChainEnd(md.code, callpat);
    forall q: nat
      ensures q in ends <==> CallMatches(md, callpat, p, q)
    {
      CallIsRun(md, callpat, p, q);
      BranchesReach(md, callpat, p, q);
    }
  }

  /** A run from the opener is a run from one of the branches. */
  lemma BranchesReach(md: MatchData, c: nat, p: nat, q: nat)
    requires IsCallable(md.code, c)
    ensures var end := ChainEnd(md.code, c);
            Reaches(md, end, end, Config(p, c, 0), q) <==>
            FrontReaches(md, end, end, p, States(Targets(md.code, c)), q)
  {
    hide Accepts, Calls, ChainOk, AltStarts, CallMatches;
    var end := ChainEnd(md.code, c);
    var ts := Targets(md.code, c);
    OpenerIsBefore(md.code, c);
    assert Decode(md.code, c) == Eps(ts);
    if Reaches(md, end, end, Config(p, c, 0), q) {
      var n: nat :| AnyAccepts(md, end, end, Config(p, c, 0), q, n);
      var b: Config :| AnyEdge(md, end, Config(p, c, 0), b) && AnyAccepts(md, end, end, b, q, n - 1);
      var k :| 0 <= k < |ts| && ts[k] == b.off;
      assert ConfigOf(p, States(ts)[k]) == b;
    }
    if FrontReaches(md, end, end, p, States(ts), q) {
      var k :| 0 <= k < |States(ts)| && Reaches(md, end, end, ConfigOf(p, States(ts)[k]), q);
      assert ts[k] in ts;
      StepReaches(md, end, end, Config(p, c, 0), Config(p, ts[k], 0), q);
    }
  }

  lemma OpenerIsBefore(code: seq<byte>, c: nat)
    requires ChainOk(code, c)
    ensures c < ChainEnd(code, c)
    decreases |code| - c
  {
    var n := c + Get(code, c + 1);
    if code[n] == OP_ALT {
      OpenerIsBefore(code, n);
    }
  }

  ghost predicate FewEdges(md: MatchData, end: nat, p: nat, x: State, acts: seq<State>, add: seq<State>) {
    Edges(md, end, p, x, acts, add) && |acts| <= 1 && |add| <= |md.subject| + 1
  }

  /** What a nested run has found decides on the call. */
  lemma CallJudged(md: MatchData, end: nat, o: nat, p: nat, calls: seq<(nat, nat)>, ends: seq<nat>)
    requires Decode(md.code, o).Call? && o != end && p <= |md.subject|
    requires var ins := Decode(md.code, o);
             && (ins.group, p) !in calls && (forall q :: q in ends <==> CallMatches(md, ins.callpat, p, q))
             && Safe(md, ins.callpat, p, States(Targets(md.code, ins.callpat)), [(ins.group, p)] + calls)
    requires Increasing(ends) && forall q <- ends :: p <= q <= |md.subject|
    ensures |ends| > 500 ==> CallFaulty(md, o, p, calls, PCRE_ERROR_DFA_RECURSE)
    ensures |ends| <= 500 ==> CallSafe(md, o, p, calls)
    ensures var next := Decode(md.code, o).next;
            FewEdges(md, end, p, State(o, 0, 0), CallActs(next, p, ends), CallNews(next, p, ends))
  {
    hide Decode, CallMatches, CallActs, CallNews, CallSafe, CallFaulty, Safe, Edges, Increasing;
    var ins := Decode(md.code, o);
    if |ends| > 500 {
      CrowdIsFault(md, o, p, calls, ends);
    } else {
      NotCrowded(md, ins.callpat, p, ends, 500);
      CallIsSafe(md, o, p, calls);
    }
    CallIsEdges(md, end, p, o, ends);
    assert forall k :: 0 <= k < |ends| ==> ends[k] in ends;
    CallAddsFew(ins.next, p, ends);
    EndsFew(ends, |md.subject|);
  }

  /** OP_RECURSE (pcre_dfa_exec.c:2789-2866): the called bracket is run from here with a workspace of its own. */
  method StepCall(mb: MatchBlock, v: StateVectors, endCode: nat, ptr: nat, o: nat, rlevel: nat, ghost callees: set<nat>)
    returns (err: int, ghost acts: seq<State>, ghost add: seq<State>)
    requires ValidCode(mb.data.code, callees) && ptr <= |mb.data.subject|
    requires InstrOk(mb.data.code, o) && Decode(mb.data.code, o).Call? && Decode(mb.data.code, o).callpat in callees
    requires o != endCode && v.Valid() && mb.data.code[o] == OP_RECURSE
    requires rlevel == |mb.recursive| && ChainOfCalls(mb.data, callees, mb.recursive)
    modifies mb`recursive, v`activeCount, v`newCount, v.ws
    ensures mb.recursive == old(mb.recursive)
    ensures err != 0 ==> IsFailure(err)
    ensures err == 0 ==> CallSafe(mb.data, o, ptr, old(mb.recursive))
    ensures err == 0 || !CallFaulty(mb.data, o, ptr, old(mb.recursive), err) ==>
              && Added(v, err == 0, acts, add) && FewEdges(mb.data, endCode, ptr, State(o, 0, 0), acts, add)
              && (err == 0 || err == PCRE_ERROR_DFA_WSSIZE)
    decreases Unused(mb.data, callees, mb.recursive), 0
  {
    hide DecodeBracket, DecodeClass, DecodeRepeat, ValidCode, Region, ChainEnd, CallMatches, ChainOk, AnyEdge,
         Unused, ChainOfCalls, CouldContinue, Recordable, FrontReaches, CallActs, CallNews, FewEdges, CallSafe, CallFaulty,
         Safe, Faulty, Crowded, States, Increasing, Targets, Suspended;
    ghost var md := mb.data;
    var callpat := Get(mb.data.code, o + 1);
    var recno := if callpat == 0 then 0 else Get(mb.data.code, callpat + 3);
    acts, add := [], [];
    var k := 0;
    while k < |mb.recursive|
      invariant 0 <= k <= |mb.recursive| && mb.recursive == old(mb.recursive)
      invariant forall j :: 0 <= j < k ==> mb.recursive[j] != (recno, ptr)
    {
      if mb.recursive[k] == (recno, ptr) {
        LoopIsFault(md, o, ptr, mb.recursive);
        return PCRE_ERROR_RECURSELOOP, acts, add;
      }
      k := k + 1;
    }
    UnusedShrinks(md, callees, mb.recursive, callpat, ptr);
    mb.recursive := [(recno, ptr)] + mb.recursive;
    var localOffsets := new int[1000];
    var localWorkspace := new int[1000];
    var rc;
    ghost var ends;
    rc, ends := InternalDfaExec(mb, callpat, ptr, localOffsets, localWorkspace, rlevel + 1, callees);
    mb.recursive := mb.recursive[1..];
    IsCallableCallee(md.code, callees, callpat);
    if rc < 0 && rc != PCRE_ERROR_NOMATCH {
      NestedIsFault(md, o, ptr, old(mb.recursive), rc);
      return rc, acts, add;
    }
    CallExact(md, callpat, ptr, ends);
    CallJudged(md, endCode, o, ptr, old(mb.recursive), ends);
    if rc == 0 {
      return PCRE_ERROR_DFA_RECURSE, acts, add;
    }
    acts, add := CallActs(o + 3, ptr, ends), CallNews(o + 3, ptr, ends);
    err := 0;
    if rc > 0 {
      var ok := AddCallStates(v, o + 3, ptr, localOffsets, rc, ends);
      if !ok {
        err := PCRE_ERROR_DFA_WSSIZE;
      }
    } else {
      NoCallStates(o + 3, ptr, ends);
    }
  }

  lemma NoCallStates(next: nat, p: nat, ends: seq<nat>)
    requires ends == []
    ensures CallActs(next, p, ends) == [] && CallNews(next, p, ends) == []
  {
  }

  lemma IsCallableCallee(code: seq<byte>, callees: set<nat>, c: nat)
    requires ValidCode(code, callees) && c in callees
    ensures IsCallable(code, c)
  {
  }

  lemma FlagsNone(code: seq<byte>, act: seq<State>, goal: nat)
    ensures !GoalIn(act, goal, 0) && !InspectsIn(code, act, 0)
  {
  }

  lemma FlagsAll(code: seq<byte>, act: seq<State>, goal: nat)
    ensures GoalIn(act, goal, |act|) <==> AtGoal(act, goal)
    ensures InspectsIn(code, act, |act|) <==> SomeInspects(code, act)
  {
    hide Inspects;
  }

  /**
   The first i active states have been acted on, the matches found before and here are recorded, and
   couldContinue tells whether one of those states looks at a character past the end of the subject.
   */
  ghost predicate PassAt(md: MatchData, v: StateVectors, region: set<nat>, end: nat, start: nat, p: nat,
                         offsets: array<int>, first: seq<State>, i: nat, ends0: seq<nat>,
                         ends: seq<nat>, matchCount: int, couldContinue: bool)
    reads v, v.ws, offsets
  {
    && v.Valid() && i <= v.activeCount && v.Settled(i)
    && PassOk(md, region, end, p, first, v.Active(), v.New(), i)
    && ends == (if GoalIn(v.Active(), end, i) && Recordable(md, start, p) then ends0 + [p] else ends0)
    && matchCount == ReturnCode(|ends|, offsets.Length / 2) && Window(offsets[..], start, ends)
    && (couldContinue <==> (p == |md.subject| && InspectsIn(md.code, v.Active(), i)))
  }

  /** The vectors hold no more than they have to, and none of the calls acted on is at fault. */
  ghost predicate PassBounded(md: MatchData, v: StateVectors, end: nat, start: nat, origin: seq<State>, p: nat,
                              first: seq<State>, i: nat, calls: seq<(nat, nat)>)
    requires v.Valid()
    reads v, v.ws
  {
    Bounded(md, end, start, origin, p, first, v.Active(), v.New(), i) && CallsSafe(md, end, p, v.Active(), i, calls)
  }

  lemma DuplicateDone(md: MatchData, v: StateVectors, region: set<nat>, end: nat, start: nat, p: nat,
                      offsets: array<int>, first: seq<State>, i: nat, ends0: seq<nat>,
                      ends: seq<nat>, matchCount: int, couldContinue: bool, j: nat)
    requires PassAt(md, v, region, end, start, p, offsets, first, i, ends0, ends, matchCount, couldContinue)
    requires i < v.activeCount && v.Settled(i + 1) && j < i && v.Active()[j] == v.Active()[i]
    ensures PassAt(md, v, region, end, start, p, offsets, first, i + 1, ends0, ends, matchCount, couldContinue)
  {
    hide Inspects, Window, ReturnCode, PassOk, GoalIn, InspectsIn, Recordable;
    PassRepeated(md, region, end, p, first, v.Active(), v.New(), i, j);
    FlagsDuplicate(md.code, v.Active(), end, i, j);
  }

  lemma CallsStep(md: MatchData, end: nat, p: nat, act: seq<State>, more: seq<State>, i: nat, calls: seq<(nat, nat)>)
    requires CallsSafe(md, end, p, act, i, calls) && i < |act| && act <= more
    requires act[i].wait == 0 && act[i].off != end && Decode(md.code, act[i].off).Call? ==>
               CallSafe(md, act[i].off, p, calls)
    ensures CallsSafe(md, end, p, more, i + 1, calls)
  {
    hide GoalIn, CallSafe, Decode, InspectsIn, Inspects;
    forall o: nat | GoalIn(more, o, i + 1)
      ensures GoalIn(act, o, i) || (act[i].wait == 0 && act[i].off == o)
    {
      FlagsStep(md.code, act, more, o, i);
    }
  }

  lemma CallsAgain(md: MatchData, end: nat, p: nat, act: seq<State>, i: nat, j: nat, calls: seq<(nat, nat)>)
    requires CallsSafe(md, end, p, act, i, calls) && j < i < |act| && act[j] == act[i]
    ensures CallsSafe(md, end, p, act, i + 1, calls)
  {
    hide GoalIn, CallSafe, Decode, InspectsIn, Inspects;
    forall o: nat | GoalIn(act, o, i + 1)
      ensures GoalIn(act, o, i)
    {
      FlagsDuplicate(md.code, act, o, i, j);
    }
  }

  lemma NoCallsYet(md: MatchData, end: nat, p: nat, act: seq<State>, calls: seq<(nat, nat)>)
    ensures CallsSafe(md, end, p, act, 0, calls)
  {
    hide CallSafe, Decode;
  }

  lemma BoundedDuplicate(md: MatchData, v: StateVectors, end: nat, start: nat, origin: seq<State>, p: nat,
                         first: seq<State>, i: nat, j: nat, calls: seq<(nat, nat)>)
    requires v.Valid() && PassBounded(md, v, end, start, origin, p, first, i, calls)
    requires j < i < v.activeCount && v.Active()[j] == v.Active()[i]
    ensures PassBounded(md, v, end, start, origin, p, first, i + 1, calls)
  {
    hide Bounded, CallsSafe;
    BoundedAgain(md, end, start, origin, p, first, v.Active(), v.New(), i, j);
    CallsAgain(md, end, p, v.Active(), i, j, calls);
  }

  /** Acts on the active state at i (pcre_dfa_exec.c:640-3089). */
  method ActOn(mb: MatchBlock, v: StateVectors, c: nat, endCode: nat, start: nat, ptr: nat,
               offsets: array<int>, matchCount0: int, rlevel: nat,
               ghost callees: set<nat>, ghost region: set<nat>, ghost origin: seq<State>,
               ghost first: seq<State>, i: nat,
               ghost ends0: seq<nat>, ghost ends1: seq<nat>, couldContinue0: bool)
    returns (err: int, matchCount: int, couldContinue: bool, ghost ends: seq<nat>)
    requires RunsFrom(mb.data, callees, c, start) && Region(mb.data.code, callees, c, region)
    requires endCode == ChainEnd(mb.data.code, c) && start <= ptr <= |mb.data.subject|
    requires offsets != v.ws && i < v.activeCount
    requires PassAt(mb.data, v, region, endCode, start, ptr, offsets, first, i, ends0, ends1, matchCount0,
                    couldContinue0)
    requires PassBounded(mb.data, v, endCode, start, origin, ptr, first, i, mb.recursive)
    requires rlevel == |mb.recursive| && ChainOfCalls(mb.data, callees, mb.recursive)
    modifies mb`recursive, v`activeCount, v`newCount, v.ws, offsets
    ensures mb.recursive == old(mb.recursive)
    ensures err != 0 ==> IsFailure(err) && Faulty(mb.data, c, start, origin, old(mb.recursive), v.cap, err)
    ensures err == 0 ==>
              && v.ws[1] == old(v.ws[1])
              && PassAt(mb.data, v, region, endCode, start, ptr, offsets, first, i + 1, ends0, ends, matchCount,
                        couldContinue)
              && PassBounded(mb.data, v, endCode, start, origin, ptr, first, i + 1, old(mb.recursive))
    decreases Unused(mb.data, callees, mb.recursive), 4
  {
    hide AnyEdge, Decode, Region, CountOk, Closed, Caused, ChainEnd, Inspects, Window, ReturnCode, PassOk,
         StatesOk, WaitsOk, Unused, ChainOfCalls, ValidCode, GoalIn, InspectsIn, InstrOk, RunsFrom, Bounded,
         CallsSafe, Faulty;
    var off, wait := v.Settle(i);
    var count := v.CountAt(i);
    CountIs(v, i);
    err, matchCount, couldContinue, ends :=
      ActSettled(mb, v, c, endCode, start, ptr, offsets, matchCount0, rlevel, callees, region, origin, first, i, off,
                 count, wait, ends0, ends1, couldContinue0);
  }

  /** The part of ActOn after the state has been read. */
  method ActSettled(mb: MatchBlock, v: StateVectors, c: nat, endCode: nat, start: nat, ptr: nat,
                    offsets: array<int>, matchCount0: int, rlevel: nat,
                    ghost callees: set<nat>, ghost region: set<nat>, ghost origin: seq<State>,
                    ghost first: seq<State>, i: nat,
                    off: nat, count: nat, wait: nat, ghost ends0: seq<nat>, ghost ends1: seq<nat>,
                    couldContinue0: bool)
    returns (err: int, matchCount: int, couldContinue: bool, ghost ends: seq<nat>)
    requires RunsFrom(mb.data, callees, c, start) && Region(mb.data.code, callees, c, region)
    requires endCode == ChainEnd(mb.data.code, c) && start <= ptr <= |mb.data.subject|
    requires offsets != v.ws && i < v.activeCount
    requires PassAt(mb.data, v, region, endCode, start, ptr, offsets, first, i, ends0, ends1, matchCount0,
                    couldContinue0)
    requires PassBounded(mb.data, v, endCode, start, origin, ptr, first, i, mb.recursive)
    requires v.Settled(i + 1) && v.Active()[i] == State(off, count, wait) && (wait > 0 ==> off > 0)
    requires rlevel == |mb.recursive| && ChainOfCalls(mb.data, callees, mb.recursive)
    modifies mb`recursive, v`activeCount, v`newCount, v.ws, offsets
    ensures mb.recursive == old(mb.recursive)
    ensures err != 0 ==> IsFailure(err) && Faulty(mb.data, c, start, origin, old(mb.recursive), v.cap, err)
    ensures err == 0 ==>
              && v.ws[1] == old(v.ws[1])
              && PassAt(mb.data, v, region, endCode, start, ptr, offsets, first, i + 1, ends0, ends, matchCount,
                        couldContinue)
              && PassBounded(mb.data, v, endCode, start, origin, ptr, first, i + 1, old(mb.recursive))
    decreases Unused(mb.data, callees, mb.recursive), 3
  {
    hide AnyEdge, Decode, Region, CountOk, Closed, Caused, ChainEnd, Inspects, Window, ReturnCode, PassOk,
         StatesOk, WaitsOk, Unused, ChainOfCalls, ValidCode, GoalIn, InspectsIn, InstrOk, RunsFrom, PassBounded, Faulty;
    matchCount, ends, couldContinue := matchCount0, ends1, couldContinue0;
    err := 0;
    if wait > 0 {
      var ok := ActWaiting(mb.data, v, c, start, ptr, offsets, matchCount0, callees, region, origin, first, i, off,
                           count, wait, ends0, ends1, couldContinue0, mb.recursive);
      err := if ok then 0 else PCRE_ERROR_DFA_WSSIZE;
      return;
    }
    var duplicate := v.IsDuplicate(i, off, count);
    if duplicate {
      ghost var j :| 0 <= j < i && v.Active()[j] == State(off, count, 0);
      DuplicateDone(mb.data, v, region, endCode, start, ptr, offsets, first, i, ends0, ends1, matchCount0,
                    couldContinue0, j);
      BoundedDuplicate(mb.data, v, endCode, start, origin, ptr, first, i, j, mb.recursive);
    } else {
      err, matchCount, couldContinue, ends :=
        ActReady(mb, v, c, endCode, start, ptr, offsets, matchCount0, rlevel, callees, region, origin, first, i, off,
                 count, ends0, ends1, couldContinue0);
    }
  }

  /** A state that still has to wait goes to the new states. */
  method ActWaiting(ghost md: MatchData, v: StateVectors, ghost c: nat, ghost start: nat, ghost ptr: nat,
                    ghost offsets: array<int>, ghost matchCount: int,
                    ghost callees: set<nat>, ghost region: set<nat>, ghost origin: seq<State>,
                    ghost first: seq<State>, ghost i: nat,
                    off: nat, count: nat, wait: nat, ghost ends0: seq<nat>, ghost ends: seq<nat>,
                    ghost couldContinue: bool, ghost calls: seq<(nat, nat)>)
    returns (ok: bool)
    requires Region(md.code, callees, c, region) && ptr <= |md.subject|
    requires offsets != v.ws && i < v.activeCount
    requires PassAt(md, v, region, ChainEnd(md.code, c), start, ptr, offsets, first, i, ends0, ends, matchCount,
                    couldContinue)
    requires PassBounded(md, v, ChainEnd(md.code, c), start, origin, ptr, first, i, calls)
    requires v.Settled(i + 1) && v.Active()[i] == State(off, count, wait) && wait > 0 && off > 0
    modifies v`newCount, v.ws
    ensures !ok ==> Faulty(md, c, start, origin, calls, v.cap, PCRE_ERROR_DFA_WSSIZE)
    ensures ok ==>
              && v.ws[1] == old(v.ws[1])
              && PassAt(md, v, region, ChainEnd(md.code, c), start, ptr, offsets, first, i + 1, ends0, ends, matchCount,
                        couldContinue)
              && PassBounded(md, v, ChainEnd(md.code, c), start, origin, ptr, first, i + 1, calls)
  {
    hide AnyEdge, Decode, Region, CountOk, Closed, Caused, ChainEnd, Inspects, Window, ReturnCode, PassOk,
         StatesOk, WaitsOk, GoalIn, InspectsIn, Recordable, Bounded, CallsSafe, Faulty;
    ghost var act, news := v.Active(), v.New();
    ok := v.AddWaiting(off, count, wait - 1);
    if ok {
      PassWaited(md, region, ChainEnd(md.code, c), ptr, first, act, news, i);
      WaitedBounded(md, callees, c, region, start, origin, ptr, first, act, news, i, calls);
      FlagsStep(md.code, act, act, ChainEnd(md.code, c), i);
      v.StillSettled(i + 1);
    } else {
      WaitedIsFault(md, region, c, start, origin, ptr, first, act, news, i, v.cap, calls);
    }
  }

  lemma WaitedBounded(md: MatchData, callees: set<nat>, c: nat, region: set<nat>, start: nat, origin: seq<State>, p: nat,
                      first: seq<State>, act: seq<State>, news: seq<State>, i: nat, calls: seq<(nat, nat)>)
    requires Region(md.code, callees, c, region) && i < |act| && act[i].wait > 0
    requires Bounded(md, ChainEnd(md.code, c), start, origin, p, first, act, news, i)
    requires CallsSafe(md, ChainEnd(md.code, c), p, act, i, calls)
    requires PassOk(md, region, ChainEnd(md.code, c), p, first, act, news + [act[i].(wait := act[i].wait - 1)], i + 1)
    ensures var more := news + [act[i].(wait := act[i].wait - 1)];
            Bounded(md, ChainEnd(md.code, c), start, origin, p, first, act, more, i + 1)
    ensures CallsSafe(md, ChainEnd(md.code, c), p, act, i + 1, calls)
  {
    hide Bounded, CallsSafe, PassOk, Region, ChainEnd, CallSafe;
    BoundedWait(md, callees, c, region, start, origin, p, first, act, news, i);
    CallsStep(md, ChainEnd(md.code, c), p, act, act, i, calls);
  }

  lemma WaitedIsFault(md: MatchData, region: set<nat>, c: nat, start: nat, origin: seq<State>, p: nat,
                      first: seq<State>, act: seq<State>, news: seq<State>, i: nat, cap: nat, calls: seq<(nat, nat)>)
    requires Bounded(md, ChainEnd(md.code, c), start, origin, p, first, act, news, i) && i < |act| && act[i].wait > 0
    requires PassOk(md, region, ChainEnd(md.code, c), p, first, act, news, i) && |news| + 1 >= cap
    ensures Faulty(md, c, start, origin, calls, cap, PCRE_ERROR_DFA_WSSIZE)
  {
    hide Bounded, Closed, Caused, StatesOk, WaitsOk, Overloaded, Faulty, ChainEnd;
    RoomForWait(md, ChainEnd(md.code, c), start, origin, p, first, act, news, i, cap);
    LoadIsFault(md, c, start, origin, calls, cap);
  }

  /** The part of ActOn for a state that neither waits nor repeats an earlier one. */
  method ActReady(mb: MatchBlock, v: StateVectors, c: nat, endCode: nat, start: nat, ptr: nat,
                  offsets: array<int>, matchCount0: int, rlevel: nat,
                  ghost callees: set<nat>, ghost region: set<nat>, ghost origin: seq<State>,
                  ghost first: seq<State>, ghost i: nat,
                  off: nat, count: nat, ghost ends0: seq<nat>, ghost ends1: seq<nat>, couldContinue0: bool)
    returns (err: int, matchCount: int, couldContinue: bool, ghost ends: seq<nat>)
    requires RunsFrom(mb.data, callees, c, start) && Region(mb.data.code, callees, c, region)
    requires endCode == ChainEnd(mb.data.code, c) && start <= ptr <= |mb.data.subject|
    requires offsets != v.ws && i < v.activeCount
    requires PassAt(mb.data, v, region, endCode, start, ptr, offsets, first, i, ends0, ends1, matchCount0,
                    couldContinue0)
    requires PassBounded(mb.data, v, endCode, start, origin, ptr, first, i, mb.recursive)
    requires v.Settled(i + 1) && v.Active()[i] == State(off, count, 0)
    requires forall j :: 0 <= j < i ==> v.Active()[j] != State(off, count, 0)
    requires rlevel == |mb.recursive| && ChainOfCalls(mb.data, callees, mb.recursive)
    modifies mb`recursive, v`activeCount, v`newCount, v.ws, offsets
    ensures mb.recursive == old(mb.recursive)
    ensures err != 0 ==> IsFailure(err) && Faulty(mb.data, c, start, origin, old(mb.recursive), v.cap, err)
    ensures err == 0 ==>
              && v.ws[1] == old(v.ws[1])
              && PassAt(mb.data, v, region, endCode, start, ptr, offsets, first, i + 1, ends0, ends, matchCount,
                        couldContinue)
              && PassBounded(mb.data, v, endCode, start, origin, ptr, first, i + 1, old(mb.recursive))
    decreases Unused(mb.data, callees, mb.recursive), 2
  {
    hide AnyEdge, Decode, Region, CountOk, Closed, Caused, ChainEnd, Inspects, Window, ReturnCode, PassOk,
         StatesOk, WaitsOk, Unused, ChainOfCalls, ValidCode, GoalIn, InspectsIn, InstrOk, LooksAtCharacter, Edges,
         StepActs, StepNews, Bounded, CallsSafe, Faulty;
    ghost var md, act, news := mb.data, v.Active(), v.New();
    matchCount, ends, couldContinue := matchCount0, ends1, couldContinue0;
    err := 0;
    StateIsOk(md, callees, c, region, ptr, first, act, news, i);
    var op := mb.data.code[off];
    if ptr >= |mb.data.subject| && LooksAtCharacter(op) {
      couldContinue := true;
    }
    if off == endCode {
      NotSeenYet(md, callees, c, region, ptr, first, act, news, i);
      if Recordable(mb.data, start, ptr) {
        matchCount := RecordMatch(offsets, matchCount, start, ptr, ends);
        ends := ends + [ptr];
      }
      PassEnded(md, callees, c, region, ptr, first, act, news, i);
      EndedBounded(md, callees, c, region, start, origin, ptr, first, act, news, i, mb.recursive);
      FlagsStep(md.code, act, act, endCode, i);
    } else {
      err := ActInside(mb, v, c, endCode, start, ptr, rlevel, callees, region, origin, first, i, off, count);
      if err != 0 { return; }
      FlagsStep(md.code, act, v.Active(), endCode, i);
      v.StillSettled(i + 1);
    }
  }

  lemma EndedBounded(md: MatchData, callees: set<nat>, c: nat, region: set<nat>, start: nat, origin: seq<State>, p: nat,
                     first: seq<State>, act: seq<State>, news: seq<State>, i: nat, calls: seq<(nat, nat)>)
    requires Region(md.code, callees, c, region)
    requires Bounded(md, ChainEnd(md.code, c), start, origin, p, first, act, news, i)
    requires CallsSafe(md, ChainEnd(md.code, c), p, act, i, calls)
    requires i < |act| && forall j :: 0 <= j < i ==> act[j] != act[i]
    requires act[i].wait == 0 && act[i].off == ChainEnd(md.code, c)
    requires PassOk(md, region, ChainEnd(md.code, c), p, first, act, news, i + 1)
    ensures Bounded(md, ChainEnd(md.code, c), start, origin, p, first, act, news, i + 1)
    ensures CallsSafe(md, ChainEnd(md.code, c), p, act, i + 1, calls)
  {
    hide Bounded, CallsSafe, PassOk, Region, ChainEnd, CallSafe, MeetsCall, Decode;
    assert act + [] == act && news + [] == news;
    BoundedStep(md, callees, c, region, start, origin, p, first, act, news, i, [], []);
    CallsStep(md, ChainEnd(md.code, c), p, act, act, i, calls);
  }

  /** The part of ActReady for everything but the closing opcode of the run. */
  method ActInside(mb: MatchBlock, v: StateVectors, ghost c: nat, endCode: nat, ghost start: nat, ptr: nat, rlevel: nat,
                   ghost callees: set<nat>, ghost region: set<nat>, ghost origin: seq<State>,
                   ghost first: seq<State>, ghost i: nat,
                   off: nat, count: nat)
    returns (err: int)
    requires ValidCode(mb.data.code, callees) && Region(mb.data.code, callees, c, region)
    requires endCode == ChainEnd(mb.data.code, c) && off != endCode && ptr <= |mb.data.subject|
    requires v.Valid() && i < v.activeCount && v.Active()[i] == State(off, count, 0)
    requires PassOk(mb.data, region, endCode, ptr, first, v.Active(), v.New(), i)
    requires PassBounded(mb.data, v, endCode, start, origin, ptr, first, i, mb.recursive)
    requires forall j :: 0 <= j < i ==> v.Active()[j] != v.Active()[i]
    requires rlevel == |mb.recursive| && ChainOfCalls(mb.data, callees, mb.recursive)
    modifies mb`recursive, v`activeCount, v`newCount, v.ws
    ensures mb.recursive == old(mb.recursive)
    ensures err != 0 ==> IsFailure(err) && Faulty(mb.data, c, start, origin, old(mb.recursive), v.cap, err)
    ensures err == 0 ==>
              && v.Valid() && v.Grown() && old(v.Active()) <= v.Active()
              && PassOk(mb.data, region, endCode, ptr, first, v.Active(), v.New(), i + 1)
              && PassBounded(mb.data, v, endCode, start, origin, ptr, first, i + 1, old(mb.recursive))
    decreases Unused(mb.data, callees, mb.recursive), 1
  {
    hide AnyEdge, Decode, Region, CountOk, ChainEnd, Inspects, PassOk, Unused, ChainOfCalls, ValidCode, InstrOk,
         LooksAtCharacter, Edges, StepActs, StepNews, Bounded, CallsSafe, CallSafe, CallFaulty, Faulty;
    ghost var md, act, news := mb.data, v.Active(), v.New();
    ghost var calls := mb.recursive;
    err := 0;
    StateIsOk(md, callees, c, region, ptr, first, act, news, i);
    if mb.data.code[off] == OP_RECURSE {
      ghost var acts, add;
      CallCount(md.code, off, count);
      CallHere(md, region, c, start, origin, ptr, first, act, news, i);
      err, acts, add := StepCall(mb, v, endCode, ptr, off, rlevel, callees);
      if err != 0 {
        CallFailed(md, region, c, start, origin, ptr, first, act, news, i, acts, add, v.cap, calls, err);
        return;
      }
      AfterStep(md, callees, c, region, ptr, first, act, news, i, acts, add);
      SteppedBounded(md, callees, c, region, start, origin, ptr, first, act, news, i, acts, add, calls);
    } else {
      var ok := StepState(v, mb.data, ptr, off, count);
      StepAddsFew(md, ptr, off, count);
      if !ok {
        err := PCRE_ERROR_DFA_WSSIZE;
        CrampedIsFault(md, region, c, start, origin, ptr, first, act, news, i, StepActs(md, ptr, off, count),
                       StepNews(md, ptr, off, count), v.cap, calls);
        return;
      }
      PassStepped(md, callees, c, region, ptr, first, act, news, i, off, count);
      StepsAreEdges(md, endCode, ptr, off, count);
      SteppedBounded(md, callees, c, region, start, origin, ptr, first, act, news, i, StepActs(md, ptr, off, count),
                     StepNews(md, ptr, off, count), calls);
    }
  }

  lemma StepsAreEdges(md: MatchData, end: nat, p: nat, o: nat, count: nat)
    requires o != end && !Decode(md.code, o).Call?
    ensures Edges(md, end, p, State(o, count, 0), StepActs(md, p, o, count), StepNews(md, p, o, count))
  {
    hide Decode, StepActs, StepNews, ActEdge, NewEdge;
    forall y: State
      ensures ActEdge(md, end, p, State(o, count, 0), y) <==> y in StepActs(md, p, o, count)
      ensures NewEdge(md, end, p, State(o, count, 0), y) <==> y in StepNews(md, p, o, count)
    {
      StepIsEdges(md, end, p, o, count, y);
    }
  }

  /** A call that a pass acts on is one that the run comes to. */
  lemma CallHere(md: MatchData, region: set<nat>, c: nat, start: nat, origin: seq<State>, p: nat, first: seq<State>,
                 act: seq<State>, news: seq<State>, i: nat)
    requires Bounded(md, ChainEnd(md.code, c), start, origin, p, first, act, news, i) && i < |act| && act[i].wait == 0
    requires Decode(md.code, act[i].off).Call? && act[i].off != ChainEnd(md.code, c)
    ensures CallReached(md, ChainEnd(md.code, c), start, origin, act[i].off, p)
    ensures NewFan(md, ChainEnd(md.code, c), start, origin) == |md.subject| + 1
  {
    hide ChainEnd, FrontBounded, Decode, FrontReaches, CountOk;
    assert act[i] in act;
    assert CallReached(md, ChainEnd(md.code, c), start, origin, act[i].off, p);
  }

  lemma CrampedIsFault(md: MatchData, region: set<nat>, c: nat, start: nat, origin: seq<State>, p: nat,
                       first: seq<State>, act: seq<State>, news: seq<State>, i: nat, acts: seq<State>, add: seq<State>,
                       cap: nat, calls: seq<(nat, nat)>)
    requires Bounded(md, ChainEnd(md.code, c), start, origin, p, first, act, news, i) && i < |act|
    requires forall j :: 0 <= j < i ==> act[j] != act[i]
    requires PassOk(md, region, ChainEnd(md.code, c), p, first, act, news, i)
    requires |acts| <= ActFan(md) && |add| <= NewFan(md, ChainEnd(md.code, c), start, origin)
    requires |act| + |acts| >= cap || |news| + |add| >= cap
    ensures Faulty(md, c, start, origin, calls, cap, PCRE_ERROR_DFA_WSSIZE)
  {
    hide Bounded, Closed, Caused, StatesOk, WaitsOk, Overloaded, Faulty, ChainEnd, ActFan, NewFan;
    RoomForStep(md, ChainEnd(md.code, c), start, origin, p, first, act, news, i, acts, add, cap);
    LoadIsFault(md, c, start, origin, calls, cap);
  }

  lemma CallFailed(md: MatchData, region: set<nat>, c: nat, start: nat, origin: seq<State>, p: nat,
                   first: seq<State>, act: seq<State>, news: seq<State>, i: nat, acts: seq<State>, add: seq<State>,
                   cap: nat, calls: seq<(nat, nat)>, err: int)
    requires Bounded(md, ChainEnd(md.code, c), start, origin, p, first, act, news, i) && i < |act|
    requires forall j :: 0 <= j < i ==> act[j] != act[i]
    requires PassOk(md, region, ChainEnd(md.code, c), p, first, act, news, i)
    requires CallReached(md, ChainEnd(md.code, c), start, origin, act[i].off, p)
    requires NewFan(md, ChainEnd(md.code, c), start, origin) == |md.subject| + 1
    requires CallFaulty(md, act[i].off, p, calls, err) ||
             (err == PCRE_ERROR_DFA_WSSIZE && |acts| <= 1 && |add| <= |md.subject| + 1 &&
              (|act| + |acts| >= cap || |news| + |add| >= cap))
    ensures Faulty(md, c, start, origin, calls, cap, err)
  {
    hide Bounded, PassOk, Faulty, CallFaulty, ChainEnd, NewFan, CallReached;
    if CallFaulty(md, act[i].off, p, calls, err) {
      CallIsFault(md, c, start, origin, calls, cap, err, act[i].off, p);
    } else {
      CrampedIsFault(md, region, c, start, origin, p, first, act, news, i, acts, add, cap, calls);
    }
  }

  lemma SteppedBounded(md: MatchData, callees: set<nat>, c: nat, region: set<nat>, start: nat, origin: seq<State>, p: nat,
                       first: seq<State>, act: seq<State>, news: seq<State>, i: nat, acts: seq<State>, add: seq<State>,
                       calls: seq<(nat, nat)>)
    requires Region(md.code, callees, c, region)
    requires Bounded(md, ChainEnd(md.code, c), start, origin, p, first, act, news, i)
    requires CallsSafe(md, ChainEnd(md.code, c), p, act, i, calls)
    requires i < |act| && forall j :: 0 <= j < i ==> act[j] != act[i]
    requires Edges(md, ChainEnd(md.code, c), p, act[i], acts, add)
    requires |acts| <= ActFan(md) && |add| <= NewFan(md, ChainEnd(md.code, c), start, origin)
    requires Decode(md.code, act[i].off).Call? ==> CallSafe(md, act[i].off, p, calls)
    requires PassOk(md, region, ChainEnd(md.code, c), p, first, act + acts, news + add, i + 1)
    ensures Bounded(md, ChainEnd(md.code, c), start, origin, p, first, act + acts, news + add, i + 1)
    ensures CallsSafe(md, ChainEnd(md.code, c), p, act + acts, i + 1, calls)
  {
    hide Bounded, CallsSafe, PassOk, Region, ChainEnd, CallSafe, NewFan, ActFan, Edges, Decode;
    BoundedStep(md, callees, c, region, start, origin, p, first, act, news, i, acts, add);
    CallsStep(md, ChainEnd(md.code, c), p, act, act + acts, i, calls);
  }

  lemma CallCount(code: seq<byte>, o: nat, count: nat)
    requires CountOk(code, o, count) && Decode(code, o).Call?
    ensures count == 0
  {
    hide Decode;
  }

  lemma CountIs(v: StateVectors, i: nat)
    requires v.Valid() && i < v.activeCount
    ensures v.CountAt(i) == v.Active()[i].count
  {
    assert EntryOk(v.ws[..], v.active, i) && v.Active()[i] == Entry(v.ws[..], v.active, i);
  }

  /** The closing opcode is acted on only once at each position. */
  lemma NotSeenYet(md: MatchData, callees: set<nat>, c: nat, region: set<nat>, p: nat, first: seq<State>,
                   act: seq<State>, news: seq<State>, i: nat)
    requires Region(md.code, callees, c, region)
    requires PassOk(md, region, ChainEnd(md.code, c), p, first, act, news, i) && i < |act|
    requires act[i] == State(ChainEnd(md.code, c), 0, 0)
    requires forall j :: 0 <= j < i ==> act[j] != act[i]
    ensures !GoalIn(act, ChainEnd(md.code, c), i)
  {
    hide Pass, ChainEnd, DecodeRepeat, DecodeClass;
    forall k | 0 <= k < i
      ensures !(act[k].off == ChainEnd(md.code, c) && act[k].wait == 0)
    {
      assert act[k] in act;
      assert act[k].off == ChainEnd(md.code, c) ==> act[k].count == 0;
    }
  }

  /** The loop over the active states at one position (pcre_dfa_exec.c:638-3091). */
  method ScanPosition(mb: MatchBlock, v: StateVectors, c: nat, endCode: nat, start: nat, ptr: nat,
                      offsets: array<int>, matchCount0: int, rlevel: nat,
                      ghost callees: set<nat>, ghost region: set<nat>, ghost origin: seq<State>, ghost ends0: seq<nat>)
    returns (err: int, matchCount: int, couldContinue: bool, ghost ends: seq<nat>)
    requires RunsFrom(mb.data, callees, c, start) && Region(mb.data.code, callees, c, region)
    requires endCode == ChainEnd(mb.data.code, c) && start <= ptr <= |mb.data.subject|
    requires v.Valid() && offsets != v.ws && v.New() == []
    requires StatesOk(mb.data.code, region, v.Active()) && WaitsOk(|mb.data.subject|, ptr, v.Active())
    requires FrontBounded(mb.data, endCode, start, origin, ptr, v.Active())
    requires matchCount0 == ReturnCode(|ends0|, offsets.Length / 2) && Window(offsets[..], start, ends0)
    requires rlevel == |mb.recursive| && ChainOfCalls(mb.data, callees, mb.recursive)
    modifies mb`recursive, v`activeCount, v`newCount, v.ws, offsets
    ensures mb.recursive == old(mb.recursive)
    ensures err != 0 ==> IsFailure(err) && Faulty(mb.data, c, start, origin, old(mb.recursive), v.cap, err)
    ensures err == 0 ==>
              && v.Valid() && v.ws[1] == old(v.ws[1])
              && Bounded(mb.data, endCode, start, origin, ptr, old(v.Active()), v.Active(), v.New(), v.activeCount)
              && CallsSafe(mb.data, endCode, ptr, v.Active(), v.activeCount, old(mb.recursive))
              && Scanned(mb.data, endCode, ptr, old(v.Active()), v.Active(), v.New())
              && StatesOk(mb.data.code, region, v.New()) && WaitsOk(|mb.data.subject|, ptr + 1, v.New())
              && ends == WithEnd(mb.data, endCode, start, ptr, v.Active(), ends0)
              && matchCount == ReturnCode(|ends|, offsets.Length / 2) && Window(offsets[..], start, ends)
              && (couldContinue <==> ptr == |mb.data.subject| && SomeInspects(mb.data.code, v.Active()))
    decreases Unused(mb.data, callees, mb.recursive), 5
  {
    hide AnyEdge, Decode, Region, CountOk, Closed, Caused, ChainEnd, Recordable, Inspects, Window, ReturnCode,
         StatesOk, WaitsOk, Unused, ChainOfCalls, ValidCode, GoalIn, InspectsIn, InstrOk, LooksAtCharacter, Bounded,
         FrontBounded, Faulty, CallSafe;
    ghost var md := mb.data;
    ghost var first := v.Active();
    var i := 0;
    BoundedFirst(md, endCode, start, origin, ptr, first);
    matchCount, ends, couldContinue := matchCount0, ends0, false;
    PassFirst(md, region, endCode, ptr, first);
    FlagsNone(md.code, first, endCode);
    NoCallsYet(md, endCode, ptr, first, mb.recursive);
    while i < v.activeCount
      invariant 0 <= i <= v.activeCount && mb.recursive == old(mb.recursive) && v.ws[1] == old(v.ws[1])
      invariant PassAt(md, v, region, endCode, start, ptr, offsets, first, i, ends0, ends, matchCount, couldContinue)
      invariant PassBounded(md, v, endCode, start, origin, ptr, first, i, mb.recursive)
      decreases v.cap - i
    {
      err, matchCount, couldContinue, ends :=
        ActOn(mb, v, c, endCode, start, ptr, offsets, matchCount, rlevel, callees, region, origin, first, i, ends0, ends,
              couldContinue);
      if err != 0 { return; }
      i := i + 1;
    }
    err := 0;
    FlagsAll(md.code, v.Active(), endCode);
  }
}
