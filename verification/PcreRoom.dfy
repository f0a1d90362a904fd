/**
 How much workspace is enough, and what it means that a run fails.  At each position a run acts once on each state it
 can be in there, so what its vectors hold is bounded by the number of those states; and it fails for lack of room only
 if that bound is larger than the vectors.  The other failures come from subpattern calls only.
 */
module PcreRoom {
  import opened Bytes
  import opened PcreCode
  import opened PcreScan
  import opened PcreStep
  import opened PcreDfa

  // ---------- The states of a run ----------

  /** A run that starts at p0 with the states `start` comes to the subpattern call at o when it is at p. */
  ghost predicate CallReached(md: MatchData, end: nat, p0: nat, start: seq<State>, o: nat, p: nat) {
    p <= |md.subject| && o != end && Decode(md.code, o).Call? && FrontReaches(md, end, o, p0, start, p)
  }

  ghost predicate MeetsCall(md: MatchData, end: nat, p0: nat, start: seq<State>) {
    exists o: nat, p: nat :: CallReached(md, end, p0, start, o, p)
  }

  /** The largest count of these states. */
  ghost function Top(xs: seq<State>): nat {
    if xs == [] then 0 else
    var t, x := Top(xs[..|xs| - 1]), xs[|xs| - 1];
    if t < x.count then x.count else t
  }

  lemma {:induction false} TopIs(xs: seq<State>)
    ensures forall x <- xs :: x.count <= Top(xs)
    decreases |xs|
  {
    if xs != [] {
      TopIs(xs[..|xs| - 1]);
      assert xs == xs[..|xs| - 1] + [xs[|xs| - 1]];
    }
  }

  /**
   A state that the run can be in at p: at an offset it reaches, with a count that is no larger than the number of
   characters since the run began, and waiting only if there are calls.
   */
  ghost predicate Live(md: MatchData, end: nat, p0: nat, start: seq<State>, p: nat, x: State) {
    && p0 <= p && p + x.wait <= |md.subject| && x.off < |md.code|
    && x.count <= Top(start) + (p - p0) && CountOk(md.code, x.off, x.count)
    && (x.wait > 0 ==> MeetsCall(md, end, p0, start))
    && FrontReaches(md, end, x.off, p0, start, p + x.wait)
  }

  ghost predicate AllLive(md: MatchData, end: nat, p0: nat, start: seq<State>, p: nat, xs: seq<State>) {
    forall x <- xs :: Live(md, end, p0, start, p, x)
  }

  ghost function LiveStates(md: MatchData, end: nat, p0: nat, start: seq<State>, p: nat): set<State> {
    set o: nat, c: nat, w: nat |
      o < |md.code| && c <= Top(start) + |md.subject| && w <= |md.subject| && Live(md, end, p0, start, p, State(o, c, w)) ::
      State(o, c, w)
  }

  lemma LiveIsIn(md: MatchData, end: nat, p0: nat, start: seq<State>, p: nat, x: State)
    requires Live(md, end, p0, start, p, x)
    ensures x in LiveStates(md, end, p0, start, p)
  {
    assert x == State(x.off, x.count, x.wait);
  }

  // ---------- How many there can be ----------

  /** No state makes more than this many states active. */
  function ActFan(md: MatchData): nat {
    |md.code| + 1
  }

  /** No state gives more than this many for the next position: one, or one for each match of a call. */
  ghost function NewFan(md: MatchData, end: nat, p0: nat, start: seq<State>): nat {
    if MeetsCall(md, end, p0, start) then |md.subject| + 1 else 1
  }

  function Times(a: nat, b: nat): nat {
    a * b
  }

  /** As many states as a pass at p can begin with: if there are calls, also those that have been waiting before. */
  ghost function FrontMost(md: MatchData, end: nat, p0: nat, start: seq<State>, p: nat): nat
    decreases p
  {
    if p <= p0 then |start| else
    (if MeetsCall(md, end, p0, start) then FrontMost(md, end, p0, start, p - 1) else |start|)
    + Times(|LiveStates(md, end, p0, start, p - 1)|, NewFan(md, end, p0, start))
  }

  /** As many states as either vector can come to hold at p. */
  ghost function Needed(md: MatchData, end: nat, p0: nat, start: seq<State>, p: nat): nat {
    FrontMost(md, end, p0, start, p) + Times(|LiveStates(md, end, p0, start, p)|, ActFan(md) + NewFan(md, end, p0, start))
  }

  /** At some position, the vectors may have to hold as many states as they have room for. */
  ghost predicate Overloaded(md: MatchData, end: nat, p0: nat, start: seq<State>, cap: nat) {
    exists p: nat :: p0 <= p <= |md.subject| && cap <= Needed(md, end, p0, start, p)
  }

  /** The states among the first i, each once. */
  ghost function Done(act: seq<State>, i: nat): set<State>
    requires i <= |act|
  {
    set x | x in act[..i]
  }

  /** How many of these states wait. */
  ghost function Waiting(xs: seq<State>): nat {
    if xs == [] then 0 else Waiting(xs[..|xs| - 1]) + if xs[|xs| - 1].wait > 0 then 1 else 0
  }

  lemma WaitingStep(act: seq<State>, acts: seq<State>, i: nat)
    requires i < |act|
    ensures Waiting((act + acts)[..i + 1]) == Waiting(act[..i]) + if act[i].wait > 0 then 1 else 0
  {
    assert (act + acts)[..i + 1][..i] == act[..i];
  }

  /** Only the states a pass begins with can be waiting, and none is if there are no calls. */
  lemma {:induction false} WaitingFew(md: MatchData, end: nat, p0: nat, start: seq<State>, p: nat, first: seq<State>,
                                      act: seq<State>, news: seq<State>, i: nat)
    requires Caused(md, end, p, first, act, news) && AllLive(md, end, p0, start, p, act) && i <= |act|
    ensures Waiting(act[..i]) <= (if i < |first| then i else |first|)
    ensures !MeetsCall(md, end, p0, start) ==> Waiting(act[..i]) == 0
    decreases i
  {
    hide AnyEdge, MeetsCall, FrontReaches, CountOk;
    if i > 0 {
      WaitingFew(md, end, p0, start, p, first, act, news, i - 1);
      assert act[..i][..i - 1] == act[..i - 1];
      assert act[i - 1] in act;
      if i - 1 >= |first| {
        assert ActCaused(md, end, p, act, i - 1);
      }
    }
  }

  ghost predicate FrontBounded(md: MatchData, end: nat, p0: nat, start: seq<State>, p: nat, first: seq<State>) {
    && p0 <= p && Carries(md, end, p0, start, p, first)
    && AllLive(md, end, p0, start, p, first) && |first| <= FrontMost(md, end, p0, start, p)
  }

  /** A pass at p in which the vectors have grown only because of states that have been acted on. */
  ghost predicate Bounded(md: MatchData, end: nat, p0: nat, start: seq<State>, p: nat, first: seq<State>,
                          act: seq<State>, news: seq<State>, i: nat) {
    && FrontBounded(md, end, p0, start, p, first) && p <= |md.subject| && i <= |act|
    && AllLive(md, end, p0, start, p, act) && AllLive(md, end, p0, start, p + 1, news)
    && |act| <= |first| + |Done(act, i)| * ActFan(md)
    && |news| <= Waiting(act[..i]) + |Done(act, i)| * NewFan(md, end, p0, start)
  }

  lemma DoneIsLive(md: MatchData, end: nat, p0: nat, start: seq<State>, p: nat, act: seq<State>, i: nat)
    requires AllLive(md, end, p0, start, p, act) && i <= |act|
    ensures |Done(act, i)| <= |LiveStates(md, end, p0, start, p)|
  {
    hide Live, LiveStates;
    forall x | x in Done(act, i)
      ensures x in LiveStates(md, end, p0, start, p)
    {
      assert x in act;
      LiveIsIn(md, end, p0, start, p, x);
    }
    SubsetSize(Done(act, i), LiveStates(md, end, p0, start, p));
  }

  lemma MoreFactors(a: nat, b: nat, c: nat)
    requires a <= b
    ensures a * c <= b * c
  {
  }

  lemma AddUp(done: nat, live: nat, a: nat, n: nat)
    requires done <= live
    ensures done * a <= Times(live, a + n) && done * n <= Times(live, a + n)
  {
    MoreFactors(done, live, a);
    MoreFactors(done, live, n);
    MoreFactors(0, live, a);
    MoreFactors(0, live, n);
    assert live * (a + n) == live * a + live * n;
  }

  /** A pass begins with the states it is given. */
  lemma BoundedFirst(md: MatchData, end: nat, p0: nat, start: seq<State>, p: nat, first: seq<State>)
    requires FrontBounded(md, end, p0, start, p, first) && p <= |md.subject|
    ensures Bounded(md, end, p0, start, p, first, first, [], 0)
  {
    hide Live, Carries, FrontMost;
    assert Done(first, 0) == {};
  }

  /** The states for the next position are no more than the states of this one lead to. */
  lemma BoundedLast(md: MatchData, end: nat, p0: nat, start: seq<State>, p: nat, first: seq<State>, act: seq<State>,
                    news: seq<State>)
    requires Bounded(md, end, p0, start, p, first, act, news, |act|) && Carries(md, end, p0, start, p + 1, news)
    requires Scanned(md, end, p, first, act, news)
    ensures FrontBounded(md, end, p0, start, p + 1, news)
  {
    hide Live, Carries, LiveStates, Done, NewFan, Closed, Caused, MeetsCall;
    WaitingFew(md, end, p0, start, p, first, act, news, |act|);
    assert act[..|act|] == act;
    DoneIsLive(md, end, p0, start, p, act, |act|);
    MoreFactors(|Done(act, |act|)|, |LiveStates(md, end, p0, start, p)|, NewFan(md, end, p0, start));
  }

  lemma DoneGrows(act: seq<State>, acts: seq<State>, i: nat)
    requires i < |act| && forall j :: 0 <= j < i ==> act[j] != act[i]
    ensures Done(act + acts, i + 1) == Done(act, i) + {act[i]}
    ensures |Done(act + acts, i + 1)| == |Done(act, i)| + 1
  {
    assert (act + acts)[..i + 1] == act[..i] + [act[i]];
    assert act[i] !in act[..i];
  }

  /** What acting on one more state needs: if there is not so much room, the vectors are overloaded. */
  lemma RoomForStep(md: MatchData, end: nat, p0: nat, start: seq<State>, p: nat, first: seq<State>, act: seq<State>,
                    news: seq<State>, i: nat, acts: seq<State>, add: seq<State>, cap: nat)
    requires Bounded(md, end, p0, start, p, first, act, news, i) && i < |act|
    requires forall j :: 0 <= j < i ==> act[j] != act[i]
    requires Caused(md, end, p, first, act, news)
    requires |acts| <= ActFan(md) && |add| <= NewFan(md, end, p0, start)
    requires |act| + |acts| >= cap || |news| + |add| >= cap
    ensures Overloaded(md, end, p0, start, cap)
  {
    hide AllLive, Carries, LiveStates, Done, NewFan, ActFan, FrontMost, Caused, Waiting, Times;
    WaitingFew(md, end, p0, start, p, first, act, news, i);
    DoneGrows(act, [], i);
    assert act + [] == act;
    DoneIsLive(md, end, p0, start, p, act, i + 1);
    AddUp(|Done(act, i)| + 1, |LiveStates(md, end, p0, start, p)|, ActFan(md), NewFan(md, end, p0, start));
    OneMoreTimes(|Done(act, i)|, ActFan(md));
    OneMoreTimes(|Done(act, i)|, NewFan(md, end, p0, start));
    assert cap <= Needed(md, end, p0, start, p);
  }

  /** The same for a state that waits. */
  lemma RoomForWait(md: MatchData, end: nat, p0: nat, start: seq<State>, p: nat, first: seq<State>, act: seq<State>,
                    news: seq<State>, i: nat, cap: nat)
    requires Bounded(md, end, p0, start, p, first, act, news, i) && i < |act| && act[i].wait > 0
    requires Caused(md, end, p, first, act, news) && |news| + 1 >= cap
    ensures Overloaded(md, end, p0, start, cap)
  {
    hide AllLive, Carries, LiveStates, Done, NewFan, ActFan, FrontMost, Caused, Waiting, Times;
    WaitingFew(md, end, p0, start, p, first, act, news, i + 1);
    WaitingStep(act, [], i);
    assert act + [] == act;
    DoneIsLive(md, end, p0, start, p, act, i);
    AddUp(|Done(act, i)|, |LiveStates(md, end, p0, start, p)|, ActFan(md), NewFan(md, end, p0, start));
    assert cap <= Needed(md, end, p0, start, p);
  }

  /** What the states of a pass are reached from. */
  lemma ReachedFromStart(md: MatchData, end: nat, p0: nat, start: seq<State>, p: nat, first: seq<State>,
                         act: seq<State>, news: seq<State>)
    requires Carries(md, end, p0, start, p, first) && Caused(md, end, p, first, act, news)
    ensures forall x <- act :: FrontReaches(md, end, x.off, p0, start, p + x.wait)
    ensures forall y <- news :: FrontReaches(md, end, y.off, p0, start, p + 1 + y.wait)
  {
    hide AnyEdge, FrontReaches, Caused, QuietFrom;
    assert Continues(md, md);
    forall x | x in act
      ensures FrontReaches(md, end, x.off, p0, start, p + x.wait)
    {
      var k :| 0 <= k < |act| && act[k] == x;
      assert AnyAccepts(md, end, x.off, ConfigOf(p, x), p + x.wait, 0);
      ActSound(md, end, x.off, p, first, act, news, k, p + x.wait);
    }
    forall y | y in news
      ensures FrontReaches(md, end, y.off, p0, start, p + 1 + y.wait)
    {
      assert AnyAccepts(md, end, y.off, ConfigOf(p + 1, y), p + 1 + y.wait, 0);
      NewSound(md, end, y.off, p, first, act, news, y, p + 1 + y.wait);
    }
  }

  lemma NewSound(md: MatchData, end: nat, goal: nat, p: nat, first: seq<State>, act: seq<State>, news: seq<State>,
                 y: State, q: nat)
    requires Caused(md, end, p, first, act, news) && y in news && Reaches(md, end, goal, ConfigOf(p + 1, y), q)
    ensures FrontReaches(md, end, goal, p, first, q)
  {
    hide AnyEdge;
    var k :| 0 <= k < |news| && news[k] == y;
    assert NewCaused(md, end, p, act, news[k]);
    var j :| 0 <= j < |act| && NewEdge(md, end, p, act[j], y);
    if act[j].wait == 0 {
      StepReaches(md, end, goal, ConfigOf(p, act[j]), ConfigOf(p + 1, y), q);
    } else {
      assert ConfigOf(p, act[j]) == ConfigOf(p + 1, y);
    }
    ActSound(md, end, goal, p, first, act, news, j, q);
  }

  /** What may follow a live state has no larger count, and waits only behind a call. */
  lemma EdgeCount(md: MatchData, end: nat, p: nat, x: State, y: State)
    ensures ActEdge(md, end, p, x, y) ==> y.count == 0 && y.wait == 0
    ensures NewEdge(md, end, p, x, y) ==> y.count <= x.count + 1
    ensures NewEdge(md, end, p, x, y) && y.wait > 0 && x.wait == 0 ==> x.off != end && Decode(md.code, x.off).Call?
  {
    hide Decode;
  }

  /** A state is acted on for the first time. */
  lemma BoundedStep(md: MatchData, callees: set<nat>, c: nat, region: set<nat>, p0: nat, start: seq<State>, p: nat,
                    first: seq<State>, act: seq<State>, news: seq<State>, i: nat, acts: seq<State>, add: seq<State>)
    requires Region(md.code, callees, c, region)
    requires Bounded(md, ChainEnd(md.code, c), p0, start, p, first, act, news, i) && i < |act|
    requires forall j :: 0 <= j < i ==> act[j] != act[i]
    requires Edges(md, ChainEnd(md.code, c), p, act[i], acts, add)
    requires |acts| <= ActFan(md) && |add| <= NewFan(md, ChainEnd(md.code, c), p0, start)
    requires PassOk(md, region, ChainEnd(md.code, c), p, first, act + acts, news + add, i + 1)
    ensures Bounded(md, ChainEnd(md.code, c), p0, start, p, first, act + acts, news + add, i + 1)
  {
    hide Live, Carries, LiveStates, Done, NewFan, FrontMost, ChainEnd, Region, Edges, PassOk, Waiting;
    var end := ChainEnd(md.code, c);
    AddedLive(md, callees, c, region, p0, start, p, first, act, news, i, acts, add);
    WaitingStep(act, acts, i);
    DoneGrows(act, acts, i);
    OneMoreTimes(|Done(act, i)|, ActFan(md));
    OneMoreTimes(|Done(act, i)|, NewFan(md, end, p0, start));
  }

  /** A state that goes on waiting. */
  lemma BoundedWait(md: MatchData, callees: set<nat>, c: nat, region: set<nat>, p0: nat, start: seq<State>, p: nat,
                    first: seq<State>, act: seq<State>, news: seq<State>, i: nat)
    requires Region(md.code, callees, c, region)
    requires Bounded(md, ChainEnd(md.code, c), p0, start, p, first, act, news, i) && i < |act| && act[i].wait > 0
    requires PassOk(md, region, ChainEnd(md.code, c), p, first, act, news + [act[i].(wait := act[i].wait - 1)], i + 1)
    ensures Bounded(md, ChainEnd(md.code, c), p0, start, p, first, act, news + [act[i].(wait := act[i].wait - 1)], i + 1)
  {
    hide Live, Carries, LiveStates, Done, NewFan, FrontMost, ChainEnd, Region, PassOk, Waiting;
    var end, add := ChainEnd(md.code, c), [act[i].(wait := act[i].wait - 1)];
    assert act + [] == act;
    AddedLive(md, callees, c, region, p0, start, p, first, act, news, i, [], add);
    WaitingStep(act, [], i);
    DoneStays(act, i);
    MoreFactors(|Done(act, i)|, |Done(act, i + 1)|, ActFan(md));
    MoreFactors(|Done(act, i)|, |Done(act, i + 1)|, NewFan(md, end, p0, start));
  }

  lemma DoneStays(act: seq<State>, i: nat)
    requires i < |act|
    ensures |Done(act, i)| <= |Done(act, i + 1)|
  {
    assert act[..i + 1] == act[..i] + [act[i]];
    SubsetSize(Done(act, i), Done(act, i + 1));
  }

  lemma AddedLive(md: MatchData, callees: set<nat>, c: nat, region: set<nat>, p0: nat, start: seq<State>, p: nat,
                  first: seq<State>, act: seq<State>, news: seq<State>, i: nat, acts: seq<State>, add: seq<State>)
    requires Region(md.code, callees, c, region)
    requires Bounded(md, ChainEnd(md.code, c), p0, start, p, first, act, news, i) && i < |act|
    requires Edges(md, ChainEnd(md.code, c), p, act[i], acts, add)
    requires PassOk(md, region, ChainEnd(md.code, c), p, first, act + acts, news + add, i + 1)
    ensures AllLive(md, ChainEnd(md.code, c), p0, start, p, act + acts)
    ensures AllLive(md, ChainEnd(md.code, c), p0, start, p + 1, news + add)
  {
    hide Carries, LiveStates, Done, NewFan, FrontMost, ChainEnd, Region, ActEdge, NewEdge, FrontReaches, Decode,
         CountOk, Closed, Caused, Top, MeetsCall, CallReached;
    var end, x := ChainEnd(md.code, c), act[i];
    ReachedFromStart(md, end, p0, start, p, first, act + acts, news + add);
    OffsetsInside(md.code, callees, c, region, act + acts);
    OffsetsInside(md.code, callees, c, region, news + add);
    assert x in act;
    forall y | y in acts
      ensures Live(md, end, p0, start, p, y)
    {
      assert y in act + acts;
      EdgeCount(md, end, p, x, y);
    }
    forall y | y in add
      ensures Live(md, end, p0, start, p + 1, y)
    {
      assert y in news + add;
      EdgeCount(md, end, p, x, y);
      if y.wait > 0 && x.wait == 0 {
        CallIsMet(md, end, p0, start, x.off, p);
      }
    }
  }

  lemma CallIsMet(md: MatchData, end: nat, p0: nat, start: seq<State>, o: nat, p: nat)
    requires p <= |md.subject| && o != end && Decode(md.code, o).Call? && FrontReaches(md, end, o, p0, start, p)
    ensures MeetsCall(md, end, p0, start)
  {
    hide FrontReaches, Decode;
    assert CallReached(md, end, p0, start, o, p);
  }

  /** A state that has been acted on before adds nothing. */
  lemma BoundedAgain(md: MatchData, end: nat, p0: nat, start: seq<State>, p: nat, first: seq<State>, act: seq<State>,
                     news: seq<State>, i: nat, j: nat)
    requires Bounded(md, end, p0, start, p, first, act, news, i) && j < i < |act| && act[j] == act[i]
    ensures Bounded(md, end, p0, start, p, first, act, news, i + 1)
  {
    hide AllLive, FrontBounded, NewFan;
    assert act[..i + 1] == act[..i] + [act[i]];
    assert act[j] in act[..i];
    assert Done(act, i + 1) == Done(act, i);
    WaitingStep(act, [], i);
    assert act + [] == act;
  }

  // ---------- What one state adds ----------

  lemma {:induction false} AltStartsFew(code: seq<byte>, o: nat)
    requires o <= |code|
    ensures |AltStarts(code, o)| <= |code| - o
    decreases |code| - o
  {
    var n := o + Get(code, o + 1);
    if IsAltAt(code, o, n) {
      AltStartsFew(code, n);
    }
  }

  lemma TargetsFew(md: MatchData, o: nat)
    requires o < |md.code|
    ensures |Targets(md.code, o)| <= ActFan(md)
  {
    hide AltStarts, ChainEnd, Get, RepeatKind;
    AltStartsFew(md.code, o);
  }

  lemma StepAddsFew(md: MatchData, p: nat, o: nat, count: nat)
    requires o < |md.code|
    ensures |StepActs(md, p, o, count)| <= ActFan(md) && |StepNews(md, p, o, count)| <= 1
  {
    hide Decode, Sees, MayLeave, Exhausts;
    TargetsFew(md, o);
  }

  lemma OffsetsInside(code: seq<byte>, callees: set<nat>, c: nat, region: set<nat>, xs: seq<State>)
    requires Region(code, callees, c, region) && StatesOk(code, region, xs)
    ensures forall x <- xs :: x.off < |code|
  {
    hide Decode, CountOk, Targets, ChainOk;
    forall x | x in xs
      ensures x.off < |code|
    {
      assert InstrOk(code, x.off);
    }
  }

  // ---------- Why a run fails ----------

  /** More than n matches from p. */
  ghost predicate Crowded(md: MatchData, callpat: nat, p: nat, n: nat) {
    exists ends: seq<nat> :: Increasing(ends) && |ends| > n && forall q <- ends :: CallMatches(md, callpat, p, q)
  }

  /**
   The call at o, made at p while others are in progress, is why the result is rc: its group is being called from p
   already; or has more than the 500 matches that a nested run can report; or the fault is in that nested run, whose
   workspace of 1000 words holds 166 states in each vector.
   */
  ghost predicate CallFault(md: MatchData, o: nat, p: nat, calls: seq<(nat, nat)>, rc: int, d: nat)
    decreases d, 0
  {
    var ins := Decode(md.code, o);
    && ins.Call?
    && (|| (rc == PCRE_ERROR_RECURSELOOP && (ins.group, p) in calls)
        || (rc == PCRE_ERROR_DFA_RECURSE && Crowded(md, ins.callpat, p, 500))
        || (d > 0 && RunFault(md, ins.callpat, p, States(Targets(md.code, ins.callpat)), [(ins.group, p)] + calls, 166, rc,
                              d - 1)))
  }

  /** A run with room for cap states: it is overloaded, or comes to a call that is at fault. */
  ghost predicate RunFault(md: MatchData, c: nat, p0: nat, start: seq<State>, calls: seq<(nat, nat)>, cap: nat, rc: int,
                           d: nat)
    decreases d, 1
  {
    || (rc == PCRE_ERROR_DFA_WSSIZE && Overloaded(md, ChainEnd(md.code, c), p0, start, cap))
    || exists o: nat, p: nat ::
         CallReached(md, ChainEnd(md.code, c), p0, start, o, p) && CallFault(md, o, p, calls, rc, d)
  }

  ghost predicate CallFaulty(md: MatchData, o: nat, p: nat, calls: seq<(nat, nat)>, rc: int) {
    exists d: nat :: CallFault(md, o, p, calls, rc, d)
  }

  ghost predicate Faulty(md: MatchData, c: nat, p0: nat, start: seq<State>, calls: seq<(nat, nat)>, cap: nat, rc: int) {
    exists d: nat :: RunFault(md, c, p0, start, calls, cap, rc, d)
  }

  /** A call is not at fault, leaving aside the room in the vectors. */
  ghost predicate CallSafe(md: MatchData, o: nat, p: nat, calls: seq<(nat, nat)>) {
    !CallFaulty(md, o, p, calls, PCRE_ERROR_RECURSELOOP) && !CallFaulty(md, o, p, calls, PCRE_ERROR_DFA_RECURSE)
  }

  /** No call that a run comes to is at fault. */
  ghost predicate Safe(md: MatchData, c: nat, p0: nat, start: seq<State>, calls: seq<(nat, nat)>) {
    forall o: nat, p: nat :: CallReached(md, ChainEnd(md.code, c), p0, start, o, p) ==> CallSafe(md, o, p, calls)
  }

  lemma CallIsFault(md: MatchData, c: nat, p0: nat, start: seq<State>, calls: seq<(nat, nat)>, cap: nat, rc: int,
                    o: nat, p: nat)
    requires CallReached(md, ChainEnd(md.code, c), p0, start, o, p) && CallFaulty(md, o, p, calls, rc)
    ensures Faulty(md, c, p0, start, calls, cap, rc)
  {
    hide CallReached, ChainEnd, CallFault;
    var d: nat :| CallFault(md, o, p, calls, rc, d);
    assert RunFault(md, c, p0, start, calls, cap, rc, d);
  }

  lemma LoadIsFault(md: MatchData, c: nat, p0: nat, start: seq<State>, calls: seq<(nat, nat)>, cap: nat)
    requires Overloaded(md, ChainEnd(md.code, c), p0, start, cap)
    ensures Faulty(md, c, p0, start, calls, cap, PCRE_ERROR_DFA_WSSIZE)
  {
    hide Overloaded, ChainEnd;
    assert RunFault(md, c, p0, start, calls, cap, PCRE_ERROR_DFA_WSSIZE, 0);
  }

  lemma LoopIsFault(md: MatchData, o: nat, p: nat, calls: seq<(nat, nat)>)
    requires Decode(md.code, o).Call? && (Decode(md.code, o).group, p) in calls
    ensures CallFaulty(md, o, p, calls, PCRE_ERROR_RECURSELOOP)
  {
    hide Decode;
    assert CallFault(md, o, p, calls, PCRE_ERROR_RECURSELOOP, 0);
  }

  lemma CrowdIsFault(md: MatchData, o: nat, p: nat, calls: seq<(nat, nat)>, ends: seq<nat>)
    requires Decode(md.code, o).Call? && Increasing(ends) && |ends| > 500
    requires forall q <- ends :: CallMatches(md, Decode(md.code, o).callpat, p, q)
    ensures CallFaulty(md, o, p, calls, PCRE_ERROR_DFA_RECURSE)
  {
    hide Decode, CallMatches;
    assert Crowded(md, Decode(md.code, o).callpat, p, 500);
    assert CallFault(md, o, p, calls, PCRE_ERROR_DFA_RECURSE, 0);
  }

  lemma NestedIsFault(md: MatchData, o: nat, p: nat, calls: seq<(nat, nat)>, rc: int)
    requires Decode(md.code, o).Call?
    requires var ins := Decode(md.code, o);
             Faulty(md, ins.callpat, p, States(Targets(md.code, ins.callpat)), [(ins.group, p)] + calls, 166, rc)
    ensures CallFaulty(md, o, p, calls, rc)
  {
    hide Decode, RunFault;
    var ins := Decode(md.code, o);
    var d: nat :|
      RunFault(md, ins.callpat, p, States(Targets(md.code, ins.callpat)), [(ins.group, p)] + calls, 166, rc, d);
    assert CallFault(md, o, p, calls, rc, d + 1);
  }

  /** A call that is not being made already, with few enough matches, whose run meets no call at fault. */
  lemma CallIsSafe(md: MatchData, o: nat, p: nat, calls: seq<(nat, nat)>)
    requires Decode(md.code, o).Call?
    requires var ins := Decode(md.code, o);
             && (ins.group, p) !in calls && !Crowded(md, ins.callpat, p, 500)
             && Safe(md, ins.callpat, p, States(Targets(md.code, ins.callpat)), [(ins.group, p)] + calls)
    ensures CallSafe(md, o, p, calls)
  {
    hide Decode, Crowded, CallReached, Overloaded;
    var ins := Decode(md.code, o);
    forall rc: int, d: nat | rc == PCRE_ERROR_RECURSELOOP || rc == PCRE_ERROR_DFA_RECURSE
      ensures !CallFault(md, o, p, calls, rc, d)
    {
      if d > 0 {
        NoRunFault(md, ins.callpat, p, States(Targets(md.code, ins.callpat)), [(ins.group, p)] + calls, 166, rc, d - 1);
      }
    }
  }

  lemma NoRunFault(md: MatchData, c: nat, p0: nat, start: seq<State>, calls: seq<(nat, nat)>, cap: nat, rc: int, d: nat)
    requires Safe(md, c, p0, start, calls)
    requires rc == PCRE_ERROR_RECURSELOOP || rc == PCRE_ERROR_DFA_RECURSE
    ensures !RunFault(md, c, p0, start, calls, cap, rc, d)
  {
    hide CallReached, CallFault, ChainEnd;
  }

  ghost function Places(ends: seq<nat>): set<nat> {
    set q | q in ends
  }

  lemma {:induction false} AreSet(ends: seq<nat>)
    requires Increasing(ends)
    ensures |Places(ends)| == |ends|
    decreases |ends|
  {
    if ends == [] {
      assert Places(ends) == {};
    } else {
      var rest, q := ends[..|ends| - 1], ends[|ends| - 1];
      hide Places;
      LastIsNew(ends);
      AreSet(rest);
      PlacesSplit(rest, q);
      assert ends == rest + [q];
    }
  }

  lemma LastIsNew(ends: seq<nat>)
    requires Increasing(ends) && ends != []
    ensures Increasing(ends[..|ends| - 1]) && ends[|ends| - 1] !in Places(ends[..|ends| - 1])
  {
  }

  lemma PlacesSplit(rest: seq<nat>, q: nat)
    ensures Places(rest + [q]) == Places(rest) + {q}
  {
  }

  /** No more than n matches, if these are all. */
  lemma NotCrowded(md: MatchData, callpat: nat, p: nat, ends: seq<nat>, n: nat)
    requires Increasing(ends) && |ends| <= n && forall q :: q in ends <==> CallMatches(md, callpat, p, q)
    ensures !Crowded(md, callpat, p, n)
  {
    hide CallMatches;
    forall others: seq<nat> | Increasing(others) && forall q <- others :: CallMatches(md, callpat, p, q)
      ensures |others| <= n
    {
      AreSet(ends);
      AreSet(others);
      SubsetSize(Places(others), Places(ends));
    }
  }

  // ---------- Runs without calls ----------

  /** A run without subpattern calls and with this much room does not fail. */
  function EnoughRoom(md: MatchData): nat {
    ((|md.code| + 1) * (|md.subject| + 1) + 1) * (|md.code| + 2)
  }

  ghost predicate RunFits(md: MatchData, c: nat, cap: nat) {
    CallFree(md.code, c) && !md.opts.restart && EnoughRoom(md) <= cap
  }

  lemma {:induction false} ReachedInside(md: MatchData, callees: set<nat>, c: nat, region: set<nat>, goal: nat,
                                         a: Config, q: nat, n: nat)
    requires Region(md.code, callees, c, region) && a.off in region
    requires AnyAccepts(md, ChainEnd(md.code, c), goal, a, q, n)
    ensures goal in region
    decreases n
  {
    hide Decode, ChainEnd, Targets, AnyEdge, InstrOk, IsCallable;
    if n > 0 {
      var m: Config :| AnyEdge(md, ChainEnd(md.code, c), a, m) && AnyAccepts(md, ChainEnd(md.code, c), goal, m, q, n - 1);
      EdgeTargets(md, ChainEnd(md.code, c), a, m);
      ReachedInside(md, callees, c, region, goal, m, q, n - 1);
    }
  }

  lemma NoCallReached(md: MatchData, c: nat, p0: nat)
    requires CallFree(md.code, c)
    ensures !MeetsCall(md, ChainEnd(md.code, c), p0, States(Targets(md.code, c)))
  {
    hide Decode, ChainEnd, Targets, IsCallable, InstrOk, AnyAccepts;
    var region: set<nat> :| Region(md.code, {}, c, region);
    var end, ts := ChainEnd(md.code, c), Targets(md.code, c);
    forall o: nat, p: nat | CallReached(md, end, p0, States(ts), o, p)
      ensures false
    {
      var k :| 0 <= k < |ts| && Reaches(md, end, o, ConfigOf(p0, States(ts)[k]), p);
      var n: nat :| AnyAccepts(md, end, o, ConfigOf(p0, States(ts)[k]), p, n);
      assert ts[k] in ts;
      ReachedInside(md, {}, c, region, o, ConfigOf(p0, States(ts)[k]), p, n);
    }
  }

  ghost function Column(o: nat, n: nat): set<State> {
    set c: nat | 0 <= c <= n :: State(o, c, 0)
  }

  ghost function Grid(m: nat, n: nat): set<State> {
    set o: nat, c: nat | 0 <= o < m && 0 <= c <= n :: State(o, c, 0)
  }

  lemma {:induction false} ColumnOf(o: nat, n: nat)
    ensures |Column(o, n)| == n + 1
    decreases n
  {
    if n == 0 {
      assert Column(o, n) == {State(o, 0, 0)};
    } else {
      ColumnOf(o, n - 1);
      assert Column(o, n) == Column(o, n - 1) + {State(o, n, 0)};
    }
  }

  lemma ColumnsSplit(m: nat, n: nat)
    ensures Grid(m + 1, n) == Grid(m, n) + Column(m, n) && Grid(m, n) !! Column(m, n)
  {
  }

  lemma {:induction false} GridSize(m: nat, n: nat)
    ensures |Grid(m, n)| == m * (n + 1)
    decreases m
  {
    if m == 0 {
      assert Grid(m, n) == {};
    } else {
      hide Grid, Column;
      GridSize(m - 1, n);
      ColumnOf(m - 1, n);
      ColumnsSplit(m - 1, n);
      OneMoreTimes(m - 1, n + 1);
    }
  }

  lemma {:induction false} TopOfStates(ts: seq<nat>)
    ensures Top(States(ts)) == 0
    decreases |ts|
  {
    if ts != [] {
      TopOfStates(ts[..|ts| - 1]);
      assert States(ts)[..|ts| - 1] == States(ts[..|ts| - 1]);
    }
  }

  /** Without calls there are no more live states than offsets times counts. */
  lemma LiveAreFew(md: MatchData, c: nat, p0: nat, p: nat)
    requires CallFree(md.code, c)
    ensures |LiveStates(md, ChainEnd(md.code, c), p0, States(Targets(md.code, c)), p)| <= |md.code| * (|md.subject| + 1)
  {
    hide MeetsCall, FrontReaches, Targets, ChainEnd, CountOk, Region, Top;
    var live := LiveStates(md, ChainEnd(md.code, c), p0, States(Targets(md.code, c)), p);
    NoCallReached(md, c, p0);
    TopOfStates(Targets(md.code, c));
    assert live <= Grid(|md.code|, |md.subject|);
    SubsetSize(live, Grid(|md.code|, |md.subject|));
    GridSize(|md.code|, |md.subject|);
  }

  lemma FitsNeeded(a: nat, m: nat, l0: nat, l1: nat, s: nat)
    requires s <= a + 1 && l0 <= a * m && l1 <= a * m && m > 0
    ensures s + l0 + l1 * (a + 2) < ((a + 1) * m + 1) * (a + 2)
  {
    MoreFactors(l1, a * m, a + 2);
    OneMoreTimes(a, m);
    assert ((a + 1) * m + 1) * (a + 2) == (a * m) * (a + 2) + m * (a + 2) + (a + 2);
    assert m * (a + 2) == a * m + 2 * m;
  }

  /** Such a run has nothing to fail of. */
  lemma FitsIsSound(md: MatchData, c: nat, p0: nat, calls: seq<(nat, nat)>, cap: nat, rc: int)
    requires RunFits(md, c, cap)
    ensures !Faulty(md, c, p0, States(Targets(md.code, c)), calls, cap, rc)
  {
    hide LiveStates, Targets, ChainEnd, CallFree, CallFault, EnoughRoom;
    var start, end := States(Targets(md.code, c)), ChainEnd(md.code, c);
    NoCallReached(md, c, p0);
    forall p: nat | p0 <= p <= |md.subject|
      ensures Needed(md, end, p0, start, p) < EnoughRoom(md)
    {
      FitsAt(md, c, p0, p);
    }
    assert !Overloaded(md, end, p0, start, cap);
    forall o: nat, p: nat
      ensures !CallReached(md, end, p0, start, o, p)
    {
    }
  }

  lemma FitsAt(md: MatchData, c: nat, p0: nat, p: nat)
    requires CallFree(md.code, c) && p0 <= p
    ensures Needed(md, ChainEnd(md.code, c), p0, States(Targets(md.code, c)), p) < EnoughRoom(md)
  {
    hide LiveStates, Targets, ChainEnd, CallFree, MeetsCall;
    NoCallReached(md, c, p0);
    BranchesFew(md, c);
    LiveAreFew(md, c, p0, p);
    if p > p0 {
      LiveAreFew(md, c, p0, p - 1);
    }
    FitsNeeded(|md.code|, |md.subject| + 1,
               if p > p0 then |LiveStates(md, ChainEnd(md.code, c), p0, States(Targets(md.code, c)), p - 1)| else 0,
               |LiveStates(md, ChainEnd(md.code, c), p0, States(Targets(md.code, c)), p)|, |Targets(md.code, c)|);
  }

  lemma BranchesFew(md: MatchData, c: nat)
    requires CallFree(md.code, c)
    ensures |Targets(md.code, c)| <= |md.code| + 1
  {
    hide Targets, Decode, ChainEnd, InstrOk, ChainOk;
    TargetsFew(md, c);
  }
}
