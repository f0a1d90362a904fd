/**
 One pass of the matcher over its active states at one subject position, as a relation between the
 states it starts with, the states it ends with and the states for the next position; and why a
 chain of such passes finds every accepted position, for this subject and for longer ones.
 */
module PcreScan {
  import opened Bytes
  import opened PcreCode

  /** An entry of a state vector; a waiting state starts after `wait` more characters. */
  datatype State = State(off: nat, count: nat, wait: nat)

  function ConfigOf(p: nat, x: State): Config {
    Config(p + x.wait, x.off, x.count)
  }

  /** At position p, y is added to the active states because of x. */
  ghost predicate ActEdge(md: MatchData, end: nat, p: nat, x: State, y: State) {
    x.wait == 0 && y.wait == 0 && AnyEdge(md, end, ConfigOf(p, x), ConfigOf(p, y))
  }

  /** At position p, y is added to the states for position p + 1 because of x. */
  ghost predicate NewEdge(md: MatchData, end: nat, p: nat, x: State, y: State) {
    if x.wait > 0 then y == x.(wait := x.wait - 1)
    else AnyEdge(md, end, ConfigOf(p, x), ConfigOf(p + 1, y))
  }

  /** All that the first i active states give rise to has been added. */
  ghost predicate Closed(md: MatchData, end: nat, p: nat, act: seq<State>, news: seq<State>, i: nat)
  {
    && i <= |act|
    && (forall k, y :: 0 <= k < i && ActEdge(md, end, p, act[k], y) ==> y in act)
    && (forall k, y :: 0 <= k < i && NewEdge(md, end, p, act[k], y) ==> y in news)
  }

  /** The active state at k was added because of an earlier one. */
  ghost predicate ActCaused(md: MatchData, end: nat, p: nat, act: seq<State>, k: nat)
    requires k < |act|
  {
    exists j :: 0 <= j < k && ActEdge(md, end, p, act[j], act[k])
  }

  ghost predicate NewCaused(md: MatchData, end: nat, p: nat, act: seq<State>, y: State) {
    exists j :: 0 <= j < |act| && NewEdge(md, end, p, act[j], y)
  }

  /** act extends first, and everything added since was added because of an earlier active state. */
  ghost predicate Caused(md: MatchData, end: nat, p: nat, first: seq<State>, act: seq<State>, news: seq<State>) {
    && first <= act
    && (forall k :: |first| <= k < |act| ==> ActCaused(md, end, p, act, k))
    && (forall k :: 0 <= k < |news| ==> NewCaused(md, end, p, act, news[k]))
  }

  /** A finished pass at position p. */
  ghost predicate Scanned(md: MatchData, end: nat, p: nat, first: seq<State>, act: seq<State>, news: seq<State>) {
    Closed(md, end, p, act, news, |act|) && Caused(md, end, p, first, act, news)
  }

  /** From one of the states at position p, the run can be at offset goal at position q. */
  ghost predicate FrontReaches(md: MatchData, end: nat, goal: nat, p: nat, front: seq<State>, q: nat) {
    exists k :: 0 <= k < |front| && Reaches(md, end, goal, ConfigOf(p, front[k]), q)
  }

  lemma StepReaches(md: MatchData, end: nat, goal: nat, a: Config, b: Config, q: nat)
    requires AnyEdge(md, end, a, b) && Reaches(md, end, goal, b, q)
    ensures Reaches(md, end, goal, a, q)
  {
    var n: nat :| AnyAccepts(md, end, goal, b, q, n);
    assert AnyAccepts(md, end, goal, a, q, n + 1);
  }

  lemma {:induction false} ReachesForward(md: MatchData, end: nat, goal: nat, a: Config, q: nat, n: nat)
    requires AnyAccepts(md, end, goal, a, q, n)
    ensures a.pos <= q
    decreases n
  {
    hide Decode;
    if n != 0 {
      var b: Config :| AnyEdge(md, end, a, b) && AnyAccepts(md, end, goal, b, q, n - 1);
      EdgeForward(md, end, a, b);
      ReachesForward(md, end, goal, b, q, n - 1);
    }
  }

  lemma EdgeForward(md: MatchData, end: nat, a: Config, b: Config)
    requires AnyEdge(md, end, a, b)
    ensures a.pos <= b.pos
    ensures b.pos <= a.pos || b.pos <= |md.subject|
  {
    hide Decode;
  }

  // ---------- One pass ----------

  /** Nothing is lost by a pass. */
  lemma {:induction false} ScanComplete(md: MatchData, end: nat, goal: nat, p: nat, act: seq<State>,
                                        news: seq<State>, x: State, q: nat, n: nat)
    requires Closed(md, end, p, act, news, |act|) && x in act
    requires AnyAccepts(md, end, goal, ConfigOf(p, x), q, n)
    ensures (q == p && State(goal, x.count, 0) in act) || (q == p && AtGoal(act, goal)) ||
            FrontReaches(md, end, goal, p + 1, news, q)
    decreases n
  {
    hide AnyEdge;
    var k :| 0 <= k < |act| && act[k] == x;
    if x.wait > 0 {
      var y := x.(wait := x.wait - 1);
      assert NewEdge(md, end, p, act[k], y);
      assert y in news;
      var l :| 0 <= l < |news| && news[l] == y;
      assert Reaches(md, end, goal, ConfigOf(p + 1, news[l]), q);
    } else if n == 0 {
      assert AtGoal(act, goal);
    } else {
      var b: Config :| AnyEdge(md, end, ConfigOf(p, x), b) && AnyAccepts(md, end, goal, b, q, n - 1);
      EdgeForward(md, end, ConfigOf(p, x), b);
      if b.pos == p {
        var y := State(b.off, b.count, 0);
        assert ActEdge(md, end, p, act[k], y);
        ScanComplete(md, end, goal, p, act, news, y, q, n - 1);
      } else {
        var y := State(b.off, b.count, b.pos - p - 1);
        assert ConfigOf(p + 1, y) == b;
        assert NewEdge(md, end, p, act[k], y);
        assert y in news;
        var l :| 0 <= l < |news| && news[l] == y;
        assert Reaches(md, end, goal, ConfigOf(p + 1, news[l]), q);
      }
    }
  }

  /** A state at offset goal is active. */
  ghost predicate AtGoal(act: seq<State>, goal: nat) {
    exists k :: 0 <= k < |act| && act[k].off == goal && act[k].wait == 0
  }

  /** Whatever an active state reaches, one of the first states reaches. */
  lemma {:induction false} ActSound(md: MatchData, end: nat, goal: nat, p: nat, first: seq<State>, act: seq<State>,
                                    news: seq<State>, k: nat, q: nat)
    requires Caused(md, end, p, first, act, news) && k < |act|
    requires Reaches(md, end, goal, ConfigOf(p, act[k]), q)
    ensures FrontReaches(md, end, goal, p, first, q)
    decreases k
  {
    if k < |first| {
      assert first[k] == act[k];
    } else {
      assert ActCaused(md, end, p, act, k);
      var j :| 0 <= j < k && ActEdge(md, end, p, act[j], act[k]);
      StepReaches(md, end, goal, ConfigOf(p, act[j]), ConfigOf(p, act[k]), q);
      ActSound(md, end, goal, p, first, act, news, j, q);
    }
  }

  /** A pass splits what can be reached: here, or from the states for the next position. */
  lemma ScanSplits(md: MatchData, end: nat, goal: nat, p: nat, first: seq<State>, act: seq<State>, news: seq<State>,
                   q: nat)
    requires Scanned(md, end, p, first, act, news)
    ensures FrontReaches(md, end, goal, p, first, q) <==>
            (q == p && AtGoal(act, goal)) || FrontReaches(md, end, goal, p + 1, news, q)
  {
    hide AnyEdge;
    if FrontReaches(md, end, goal, p, first, q) {
      var k :| 0 <= k < |first| && Reaches(md, end, goal, ConfigOf(p, first[k]), q);
      var n: nat :| AnyAccepts(md, end, goal, ConfigOf(p, first[k]), q, n);
      assert act[k] == first[k];
      ScanComplete(md, end, goal, p, act, news, first[k], q, n);
    }
    if q == p && AtGoal(act, goal) {
      var k :| 0 <= k < |act| && act[k].off == goal && act[k].wait == 0;
      assert AnyAccepts(md, end, goal, ConfigOf(p, act[k]), q, 0);
      ActSound(md, end, goal, p, first, act, news, k, q);
    }
    if FrontReaches(md, end, goal, p + 1, news, q) {
      var k :| 0 <= k < |news| && Reaches(md, end, goal, ConfigOf(p + 1, news[k]), q);
      assert NewCaused(md, end, p, act, news[k]);
      var j :| 0 <= j < |act| && NewEdge(md, end, p, act[j], news[k]);
      if act[j].wait == 0 {
        StepReaches(md, end, goal, ConfigOf(p, act[j]), ConfigOf(p + 1, news[k]), q);
      } else {
        assert ConfigOf(p, act[j]) == ConfigOf(p + 1, news[k]);
      }
      ActSound(md, end, goal, p, first, act, news, j, q);
    }
  }

  // ---------- Passes over a longer subject ----------

  /** From these instructions on a run that stops at `end` stays at them and meets no subpattern call. */
  ghost predicate Quiet(code: seq<byte>, end: nat, region: set<nat>) {
    forall o <- region :: o != end ==> !Decode(code, o).Call? && forall t <- Targets(code, o) :: t in region
  }

  ghost predicate Within(region: set<nat>, xs: seq<State>) {
    forall x <- xs :: x.off in region
  }

  /** Runs from these states meet no subpattern call. */
  ghost predicate QuietFrom(code: seq<byte>, end: nat, xs: seq<State>) {
    exists region: set<nat> :: Quiet(code, end, region) && Within(region, xs)
  }

  /** None of these states is at a call. */
  ghost predicate NoneCalls(code: seq<byte>, end: nat, xs: seq<State>) {
    forall x <- xs :: x.off == end || !Decode(code, x.off).Call?
  }

  lemma EdgeTargets(md: MatchData, end: nat, a: Config, b: Config)
    requires AnyEdge(md, end, a, b)
    ensures a.off != end && b.off in Targets(md.code, a.off)
  {
    hide Decode;
  }

  lemma QuietEdge(md: MatchData, end: nat, region: set<nat>, a: Config, b: Config)
    requires Quiet(md.code, end, region) && a.off in region && AnyEdge(md, end, a, b)
    ensures b.off in region && !Decode(md.code, a.off).Call?
  {
    hide Decode, Targets, AnyEdge;
    EdgeTargets(md, end, a, b);
  }

  /** A pass stays within the instructions its first states are at. */
  lemma ScanWithin(md: MatchData, end: nat, p: nat, first: seq<State>, act: seq<State>, news: seq<State>, region: set<nat>)
    requires Quiet(md.code, end, region) && Within(region, first) && Caused(md, end, p, first, act, news)
    ensures Within(region, act) && Within(region, news) && NoneCalls(md.code, end, act)
  {
    hide Quiet, AnyEdge, Decode;
    forall k: nat | k < |act|
      ensures act[k].off in region
    {
      ActWithin(md, end, p, first, act, news, region, k);
    }
    forall k: nat | k < |news|
      ensures news[k].off in region
    {
      assert NewCaused(md, end, p, act, news[k]);
      var j :| 0 <= j < |act| && NewEdge(md, end, p, act[j], news[k]);
      if act[j].wait == 0 {
        QuietEdge(md, end, region, ConfigOf(p, act[j]), ConfigOf(p + 1, news[k]));
      }
    }
    QuietStates(md.code, end, region, act);
  }

  lemma {:induction false} ActWithin(md: MatchData, end: nat, p: nat, first: seq<State>, act: seq<State>,
                                     news: seq<State>, region: set<nat>, k: nat)
    requires Quiet(md.code, end, region) && Within(region, first) && Caused(md, end, p, first, act, news) && k < |act|
    ensures act[k].off in region
    decreases k
  {
    hide Quiet, AnyEdge;
    if k < |first| {
      assert act[k] == first[k];
    } else {
      assert ActCaused(md, end, p, act, k);
      var j :| 0 <= j < k && ActEdge(md, end, p, act[j], act[k]);
      ActWithin(md, end, p, first, act, news, region, j);
      QuietEdge(md, end, region, ConfigOf(p, act[j]), ConfigOf(p, act[k]));
    }
  }

  lemma QuietStates(code: seq<byte>, end: nat, region: set<nat>, xs: seq<State>)
    requires Quiet(code, end, region) && Within(region, xs)
    ensures NoneCalls(code, end, xs)
  {
    hide Decode, Targets;
  }

  /** The same match on a subject that goes on. */
  ghost predicate Continues(md: MatchData, more: MatchData) {
    more == md.(subject := more.subject) && md.subject <= more.subject
  }

  /**
   From position p on, the states `front` stand for the states `start` at position p0: they reach the same offsets at the
   same positions, also if the subject goes on, unless there are subpattern calls.
   */
  ghost predicate Carries(md: MatchData, end: nat, p0: nat, start: seq<State>, p: nat, front: seq<State>) {
    && (forall more: MatchData, goal: nat, q: nat ::
          Continues(md, more) && (more == md || QuietFrom(md.code, end, start)) && p <= q ==>
          (FrontReaches(more, end, goal, p0, start, q) <==> FrontReaches(more, end, goal, p, front, q)))
    && (QuietFrom(md.code, end, start) ==> QuietFrom(md.code, end, front))
  }

  lemma EdgeSame(md: MatchData, more: MatchData, end: nat, a: Config, b: Config)
    requires Continues(md, more) && a.pos < |md.subject| && (a.off == end || !Decode(md.code, a.off).Call?)
    ensures AnyEdge(md, end, a, b) <==> AnyEdge(more, end, a, b)
  {
    hide Decode;
    assert md.subject[a.pos] == more.subject[a.pos];
  }

  lemma ScannedSame(md: MatchData, more: MatchData, end: nat, p: nat, first: seq<State>, act: seq<State>,
                    news: seq<State>)
    requires Continues(md, more) && p < |md.subject| && NoneCalls(md.code, end, act)
    requires Scanned(md, end, p, first, act, news)
    ensures Scanned(more, end, p, first, act, news)
  {
    hide AnyEdge, Continues, ActEdge, NewEdge, Decode;
    forall k, y | 0 <= k < |act| && ActEdge(more, end, p, act[k], y)
      ensures y in act
    {
      EdgesSame(md, more, end, p, act[k], y);
    }
    forall k, y | 0 <= k < |act| && NewEdge(more, end, p, act[k], y)
      ensures y in news
    {
      EdgesSame(md, more, end, p, act[k], y);
    }
    forall k | |first| <= k < |act|
      ensures ActCaused(more, end, p, act, k)
    {
      assert ActCaused(md, end, p, act, k);
      var j :| 0 <= j < k && ActEdge(md, end, p, act[j], act[k]);
      EdgesSame(md, more, end, p, act[j], act[k]);
    }
    forall k | 0 <= k < |news|
      ensures NewCaused(more, end, p, act, news[k])
    {
      assert NewCaused(md, end, p, act, news[k]);
      var j :| 0 <= j < |act| && NewEdge(md, end, p, act[j], news[k]);
      EdgesSame(md, more, end, p, act[j], news[k]);
    }
    assert Closed(more, end, p, act, news, |act|);
  }

  lemma EdgesSame(md: MatchData, more: MatchData, end: nat, p: nat, x: State, y: State)
    requires Continues(md, more) && p < |md.subject| && (x.off == end || !Decode(md.code, x.off).Call?)
    ensures ActEdge(md, end, p, x, y) <==> ActEdge(more, end, p, x, y)
    ensures NewEdge(md, end, p, x, y) <==> NewEdge(more, end, p, x, y)
  {
    hide AnyEdge, Continues, Decode;
    if x.wait == 0 {
      EdgeSame(md, more, end, ConfigOf(p, x), ConfigOf(p, y));
      EdgeSame(md, more, end, ConfigOf(p, x), ConfigOf(p + 1, y));
    }
  }

  /** The states for the next position carry on. */
  lemma CarriesOn(md: MatchData, end: nat, p0: nat, start: seq<State>, p: nat, first: seq<State>, act: seq<State>,
                  news: seq<State>)
    requires Carries(md, end, p0, start, p, first) && p < |md.subject|
    requires Scanned(md, end, p, first, act, news)
    ensures Carries(md, end, p0, start, p + 1, news)
  {
    hide AnyEdge, Continues, FrontReaches, AtGoal, Quiet, Within, Closed, Caused, NoneCalls;
    if QuietFrom(md.code, end, first) {
      var region: set<nat> :| Quiet(md.code, end, region) && Within(region, first);
      ScanWithin(md, end, p, first, act, news, region);
    }
    forall more: MatchData, goal: nat, q: nat |
      Continues(md, more) && (more == md || QuietFrom(md.code, end, start)) && p + 1 <= q
      ensures FrontReaches(more, end, goal, p0, start, q) <==> FrontReaches(more, end, goal, p + 1, news, q)
    {
      if more != md {
        ScannedSame(md, more, end, p, first, act, news);
      }
      ScanSplits(more, end, goal, p, first, act, news, q);
    }
  }

  /** What the pass at p says about p itself. */
  lemma CarriedHere(md: MatchData, end: nat, goal: nat, p0: nat, start: seq<State>, p: nat, first: seq<State>,
                    act: seq<State>, news: seq<State>)
    requires Carries(md, end, p0, start, p, first) && Scanned(md, end, p, first, act, news)
    ensures FrontReaches(md, end, goal, p0, start, p) <==> AtGoal(act, goal)
  {
    hide AnyEdge, Scanned, AtGoal, QuietFrom;
    assert Continues(md, md);
    ScanSplits(md, end, goal, p, first, act, news, p);
    if FrontReaches(md, end, goal, p + 1, news, p) {
      var k :| 0 <= k < |news| && Reaches(md, end, goal, ConfigOf(p + 1, news[k]), p);
      var n: nat :| AnyAccepts(md, end, goal, ConfigOf(p + 1, news[k]), p, n);
      ReachesForward(md, end, goal, ConfigOf(p + 1, news[k]), p, n);
    }
  }

  /** With no states left, nothing further on is reached. */
  lemma CarriedNowhere(md: MatchData, end: nat, goal: nat, p0: nat, start: seq<State>, p: nat, first: seq<State>,
                       act: seq<State>, q: nat)
    requires Carries(md, end, p0, start, p, first) && Scanned(md, end, p, first, act, []) && p < q
    ensures !FrontReaches(md, end, goal, p0, start, q)
  {
    hide AnyEdge, Scanned, AtGoal, QuietFrom;
    assert Continues(md, md);
    ScanSplits(md, end, goal, p, first, act, [], q);
  }

  // ---------- A pass in progress ----------

  /** The first i active states have been acted on. */
  ghost predicate Pass(md: MatchData, end: nat, p: nat, first: seq<State>, act: seq<State>, news: seq<State>, i: nat) {
    Closed(md, end, p, act, news, i) && Caused(md, end, p, first, act, news)
  }

  lemma ClosedStep(md: MatchData, end: nat, p: nat, act: seq<State>, news: seq<State>, i: nat,
                   acts: seq<State>, add: seq<State>)
    requires Closed(md, end, p, act, news, i) && i < |act|
    requires forall y :: ActEdge(md, end, p, act[i], y) <==> y in acts
    requires forall y :: NewEdge(md, end, p, act[i], y) <==> y in add
    ensures Closed(md, end, p, act + acts, news + add, i + 1)
  {
    hide ActEdge, NewEdge;
    var act', news' := act + acts, news + add;
    forall k, y | 0 <= k < i + 1 && ActEdge(md, end, p, act'[k], y)
      ensures y in act'
    {
      assert act'[k] == act[k];
    }
    forall k, y | 0 <= k < i + 1 && NewEdge(md, end, p, act'[k], y)
      ensures y in news'
    {
      assert act'[k] == act[k];
    }
  }

  lemma ActCausedStep(md: MatchData, end: nat, p: nat, act: seq<State>, i: nat, acts: seq<State>, k: nat)
    requires i < |act| && k < |act + acts|
    requires k < |act| ==> ActCaused(md, end, p, act, k)
    requires forall y <- acts :: ActEdge(md, end, p, act[i], y)
    ensures ActCaused(md, end, p, act + acts, k)
  {
    hide ActEdge;
    var act' := act + acts;
    if k < |act| {
      var j :| 0 <= j < k && ActEdge(md, end, p, act[j], act[k]);
      assert act'[j] == act[j] && act'[k] == act[k];
    } else {
      assert act'[k] in acts && act'[i] == act[i];
    }
  }

  lemma NewCausedStep(md: MatchData, end: nat, p: nat, act: seq<State>, acts: seq<State>, y: State)
    requires NewCaused(md, end, p, act, y)
    ensures NewCaused(md, end, p, act + acts, y)
  {
    hide NewEdge;
    var j :| 0 <= j < |act| && NewEdge(md, end, p, act[j], y);
    assert (act + acts)[j] == act[j];
  }

  lemma CausedStep(md: MatchData, end: nat, p: nat, first: seq<State>, act: seq<State>, news: seq<State>, i: nat,
                   acts: seq<State>, add: seq<State>)
    requires Caused(md, end, p, first, act, news) && i < |act|
    requires forall y <- acts :: ActEdge(md, end, p, act[i], y)
    requires forall y <- add :: NewEdge(md, end, p, act[i], y)
    ensures Caused(md, end, p, first, act + acts, news + add)
  {
    hide ActEdge, NewEdge, ActCaused, NewCaused;
    var act', news' := act + acts, news + add;
    forall k | |first| <= k < |act'|
      ensures ActCaused(md, end, p, act', k)
    {
      ActCausedStep(md, end, p, act, i, acts, k);
    }
    forall k | 0 <= k < |news'|
      ensures NewCaused(md, end, p, act', news'[k])
    {
      if k < |news| {
        NewCausedStep(md, end, p, act, acts, news[k]);
      } else {
        assert news'[k] in add;
        assert NewCaused(md, end, p, act, news'[k]) by { NewCausedNow(md, end, p, act, i, news'[k]); }
        NewCausedStep(md, end, p, act, acts, news'[k]);
      }
    }
  }

  lemma NewCausedNow(md: MatchData, end: nat, p: nat, act: seq<State>, i: nat, y: State)
    requires i < |act| && NewEdge(md, end, p, act[i], y)
    ensures NewCaused(md, end, p, act, y)
  {
    hide NewEdge;
  }

  /** Acting on one more state adds exactly what may follow it. */
  lemma PassStep(md: MatchData, end: nat, p: nat, first: seq<State>, act: seq<State>, news: seq<State>, i: nat,
                 acts: seq<State>, add: seq<State>)
    requires Pass(md, end, p, first, act, news, i) && i < |act|
    requires forall y :: ActEdge(md, end, p, act[i], y) <==> y in acts
    requires forall y :: NewEdge(md, end, p, act[i], y) <==> y in add
    ensures Pass(md, end, p, first, act + acts, news + add, i + 1)
  {
    hide ActEdge, NewEdge, Closed, Caused;
    ClosedStep(md, end, p, act, news, i, acts, add);
    CausedStep(md, end, p, first, act, news, i, acts, add);
  }

  /** A duplicate needs no action. */
  lemma PassDuplicate(md: MatchData, end: nat, p: nat, first: seq<State>, act: seq<State>, news: seq<State>, i: nat,
                      j: nat)
    requires Pass(md, end, p, first, act, news, i) && j < i < |act| && act[j] == act[i]
    ensures Pass(md, end, p, first, act, news, i + 1)
  {
    hide ActEdge, NewEdge;
  }

  /** A waiting state waits one character less. */
  lemma PassWaiting(md: MatchData, end: nat, p: nat, first: seq<State>, act: seq<State>, news: seq<State>, i: nat)
    requires Pass(md, end, p, first, act, news, i) && i < |act| && act[i].wait > 0
    ensures Pass(md, end, p, first, act, news + [act[i].(wait := act[i].wait - 1)], i + 1)
  {
    PassStep(md, end, p, first, act, news, i, [], [act[i].(wait := act[i].wait - 1)]);
    assert act + [] == act;
  }

  /** Nothing follows the closing opcode of the run. */
  lemma PassEnd(md: MatchData, end: nat, p: nat, first: seq<State>, act: seq<State>, news: seq<State>, i: nat)
    requires Pass(md, end, p, first, act, news, i) && i < |act| && act[i].wait == 0 && act[i].off == end
    ensures Pass(md, end, p, first, act, news, i + 1)
  {
    PassStep(md, end, p, first, act, news, i, [], []);
    assert act + [] == act && news + [] == news;
  }
}
