/**
 `internal_dfa_exec`: the states of a bracket are carried along the subject, all matches from one
 start point are recorded with the longest first, and subpattern calls run the called bracket on
 their own.
 */
module PcreDfa {
  import opened Bytes
  import opened PcreCode
  import opened PcreScan
  import opened PcreStep

  const PCRE_ERROR_NOMATCH := -1
  const PCRE_ERROR_PARTIAL := -12
  const PCRE_ERROR_DFA_WSSIZE := -19
  const PCRE_ERROR_DFA_RECURSE := -20
  const PCRE_ERROR_RECURSELOOP := -26

  /** The match block: fixed data, the calls in progress (innermost first), the earliest character used. */
  class MatchBlock {
    const data: MatchData
    var recursive: seq<(nat, nat)>
    var startUsed: nat

    constructor (data: MatchData)
      ensures this.data == data && recursive == [] && startUsed == 0
    {
      this.data := data;
      recursive := [];
      startUsed := 0;
    }
  }

  // ---------- The offsets vector ----------

  ghost predicate Increasing(ends: seq<nat>) {
    forall i, j :: 0 <= i < j < |ends| ==> ends[i] < ends[j]
  }

  /** Of `total` matches with room for `room`: the number, 0 if they do not all fit, -1 for none. */
  function ReturnCode(total: nat, room: nat): int {
    if total == 0 then PCRE_ERROR_NOMATCH else if total <= room then total else 0
  }

  /** The vector holds as many of the matches as fit, the longest first. */
  ghost predicate Window(offsets: seq<int>, start: nat, ends: seq<nat>) {
    forall k :: 0 <= k < |ends| && k < |offsets| / 2 ==>
      offsets[2 * k] == start && offsets[2 * k + 1] == ends[|ends| - 1 - k]
  }

  /** Moves the first n words up by two; the old and the new place overlap. */
  method MoveUp(a: array<int>, n: nat)
    requires n + 2 <= a.Length
    modifies a
    ensures forall i :: 0 <= i < n ==> a[i + 2] == old(a[i])
    ensures forall i :: n + 2 <= i < a.Length ==> a[i] == old(a[i])
  {
    var i := n;
    while i > 0
      invariant 0 <= i <= n
      invariant forall k :: 0 <= k < i ==> a[k] == old(a[k])
      invariant forall k :: i <= k < n ==> a[k + 2] == old(a[k])
      invariant forall k :: n + 2 <= k < a.Length ==> a[k] == old(a[k])
    {
      i := i - 1;
      a[i + 2] := a[i];
    }
  }

  /** Saves a match, moving the earlier, shorter ones up (pcre_dfa_exec.c:790-801). */
  method RecordMatch(offsets: array<int>, matchCount: int, start: nat, p: nat, ghost ends: seq<nat>)
    returns (mc: int)
    requires matchCount == ReturnCode(|ends|, offsets.Length / 2) && Window(offsets[..], start, ends)
    modifies offsets
    ensures mc == ReturnCode(|ends| + 1, offsets.Length / 2)
    ensures Window(offsets[..], start, ends + [p])
  {
    var offsetcount := offsets.Length - offsets.Length % 2;
    assert offsetcount == offsets.Length / 2 * 2;
    mc := matchCount;
    if mc < 0 {
      mc := if offsetcount >= 2 then 1 else 0;
    } else if mc > 0 {
      mc := mc + 1;
      if mc * 2 > offsetcount {
        mc := 0;
      }
    }
    var count := (if mc == 0 then offsetcount else mc * 2) - 2;
    if count > 0 {
      MoveUp(offsets, count);
    }
    if offsetcount >= 2 {
      offsets[0] := start;
      offsets[1] := p;
    }
    WindowMoved(old(offsets[..]), offsets[..], start, p, ends);
  }

  /** As many entries as still fit have moved up, and the new match is in front. */
  lemma WindowMoved(before: seq<int>, after: seq<int>, start: nat, p: nat, ends: seq<nat>)
    requires Window(before, start, ends) && |after| == |before|
    requires |after| >= 2 ==> after[0] == start && after[1] == p
    requires forall i :: 0 <= i < 2 * |ends| && i + 2 < |after| / 2 * 2 ==> after[i + 2] == before[i]
    ensures Window(after, start, ends + [p])
  {
    var all := ends + [p];
    forall k | 0 <= k < |all| && k < |after| / 2
      ensures after[2 * k] == start && after[2 * k + 1] == all[|all| - 1 - k]
    {
      if k > 0 {
        var i := 2 * (k - 1);
        assert after[i + 2] == before[i] && after[i + 1 + 2] == before[i + 1];
      }
    }
  }

  // ---------- What a run has to find ----------

  /** The ends of exactly those matches from start that the first states lead to and that are reported. */
  ghost predicate ExactEnds(md: MatchData, end: nat, start: nat, first: seq<State>, ends: seq<nat>) {
    && Increasing(ends)
    && (forall q: nat :: q in ends <==> Recordable(md, start, q) && FrontReaches(md, end, end, start, first, q))
    && (forall q <- ends :: start <= q <= |md.subject|)
  }

  /** The opcode looks at a character (poptable, pcre_dfa_exec.c:192-257). */
  predicate Inspects(code: seq<byte>, o: nat) {
    Decode(code, o).One? || Decode(code, o).Rep?
  }

  /** Some state could go on if there were more characters. */
  ghost predicate CouldContinue(md: MatchData, end: nat, start: nat, first: seq<State>) {
    exists o: nat :: Inspects(md.code, o) && FrontReaches(md, end, o, start, first, |md.subject|)
  }

  /** Whether the result is a partial match (pcre_dfa_exec.c:3106-3124). */
  ghost predicate PartialMatch(md: MatchData, end: nat, start: nat, first: seq<State>, startUsed: nat, none: bool) {
    && (md.opts.partialHard || (md.opts.partialSoft && none))
    && |md.subject| > startUsed
    && CouldContinue(md, end, start, first)
  }

  // ---------- States of a run ----------

  ghost predicate StatesOk(code: seq<byte>, region: set<nat>, xs: seq<State>) {
    forall x <- xs :: x.off in region && CountOk(code, x.off, x.count)
  }

  ghost predicate WaitsOk(n: nat, p: nat, xs: seq<State>) {
    forall x <- xs :: p + x.wait <= n
  }

  /** A run stays in its region, and its waits stay inside the subject. */
  lemma EdgeStays(md: MatchData, callees: set<nat>, c: nat, region: set<nat>, a: Config, b: Config)
    requires Region(md.code, callees, c, region) && a.off in region && CountOk(md.code, a.off, a.count)
    requires AnyEdge(md, ChainEnd(md.code, c), a, b) && a.pos <= |md.subject|
    ensures b.off in region && CountOk(md.code, b.off, b.count) && a.pos <= b.pos <= |md.subject|
  {
    hide Decode, ChainEnd;
    var ts := Targets(md.code, a.off);
    if b.off == a.off && b.count > 0 {
    } else {
      assert b.off in ts;
    }
  }

  ghost predicate Edges(md: MatchData, end: nat, p: nat, x: State, acts: seq<State>, add: seq<State>) {
    && (forall y :: ActEdge(md, end, p, x, y) <==> y in acts)
    && (forall y :: NewEdge(md, end, p, x, y) <==> y in add)
  }

  ghost predicate PassOk(md: MatchData, region: set<nat>, end: nat, p: nat, first: seq<State>, act: seq<State>,
                         news: seq<State>, i: nat) {
    && Pass(md, end, p, first, act, news, i)
    && StatesOk(md.code, region, act) && StatesOk(md.code, region, news)
    && WaitsOk(|md.subject|, p, act) && WaitsOk(|md.subject|, p + 1, news)
  }

  lemma AfterStep(md: MatchData, callees: set<nat>, c: nat, region: set<nat>, p: nat, first: seq<State>,
                  act: seq<State>, news: seq<State>, i: nat, acts: seq<State>, add: seq<State>)
    requires Region(md.code, callees, c, region) && p <= |md.subject|
    requires PassOk(md, region, ChainEnd(md.code, c), p, first, act, news, i) && i < |act|
    requires Edges(md, ChainEnd(md.code, c), p, act[i], acts, add)
    ensures PassOk(md, region, ChainEnd(md.code, c), p, first, act + acts, news + add, i + 1)
  {
    hide AnyEdge, CountOk, Pass, ChainEnd, Region;
    var end := ChainEnd(md.code, c);
    PassStep(md, end, p, first, act, news, i, acts, add);
    assert act[i] in act;
    forall y | y in acts
      ensures y.off in region && CountOk(md.code, y.off, y.count) && p + y.wait <= |md.subject|
    {
      assert ActEdge(md, end, p, act[i], y);
      EdgeStays(md, callees, c, region, ConfigOf(p, act[i]), ConfigOf(p, y));
    }
    forall y | y in add
      ensures y.off in region && CountOk(md.code, y.off, y.count) && p + 1 + y.wait <= |md.subject|
    {
      assert NewEdge(md, end, p, act[i], y);
      if act[i].wait == 0 {
        EdgeStays(md, callees, c, region, ConfigOf(p, act[i]), ConfigOf(p + 1, y));
      }
    }
  }

  // ---------- Calls in progress ----------

  ghost function Groups(code: seq<byte>, callees: set<nat>): set<nat> {
    set c | c in callees :: GroupNumber(code, c)
  }

  /** Every (group, position) pair a call can be made with. */
  ghost function Pairs(groups: set<nat>, n: nat): set<(nat, nat)> {
    set g: nat, p: nat | g in groups && 0 <= p <= n :: (g, p)
  }

  ghost function Chain(calls: seq<(nat, nat)>): set<(nat, nat)> {
    set x | x in calls
  }

  ghost predicate NoRepeats(calls: seq<(nat, nat)>) {
    forall i, j :: 0 <= i < j < |calls| ==> calls[i] != calls[j]
  }

  /** The calls in progress are possible ones, and none is made twice at the same position. */
  ghost predicate ChainOfCalls(md: MatchData, callees: set<nat>, calls: seq<(nat, nat)>) {
    NoRepeats(calls) && Chain(calls) <= Pairs(Groups(md.code, callees), |md.subject|)
  }

  /** The pairs no call in progress uses: what the nesting of calls uses up. */
  ghost function Unused(md: MatchData, callees: set<nat>, calls: seq<(nat, nat)>): set<(nat, nat)> {
    Pairs(Groups(md.code, callees), |md.subject|) - Chain(calls)
  }

  /** A call that is not in progress yet uses up one of the unused pairs. */
  lemma UnusedShrinks(md: MatchData, callees: set<nat>, calls: seq<(nat, nat)>, c: nat, p: nat)
    requires c in callees && p <= |md.subject| && (GroupNumber(md.code, c), p) !in calls
    requires ChainOfCalls(md, callees, calls)
    ensures ChainOfCalls(md, callees, [(GroupNumber(md.code, c), p)] + calls)
    ensures Unused(md, callees, [(GroupNumber(md.code, c), p)] + calls) < Unused(md, callees, calls)
  {
    var x := (GroupNumber(md.code, c), p);
    assert x.0 in Groups(md.code, callees);
    assert x in Unused(md, callees, calls);
    assert x !in Unused(md, callees, [x] + calls);
    assert Chain([x] + calls) == Chain(calls) + {x};
  }

  lemma PairsSplit(groups: set<nat>, g: nat, n: nat)
    requires g in groups
    ensures Pairs(groups, n) == Pairs(groups - {g}, n) + Pairs({g}, n)
    ensures Pairs(groups - {g}, n) !! Pairs({g}, n)
  {
  }

  lemma {:induction false} PairsSize(groups: set<nat>, n: nat)
    ensures |Pairs(groups, n)| == |groups| * (n + 1)
    decreases |groups|
  {
    if groups == {} {
      assert Pairs(groups, n) == {};
    } else {
      hide Pairs;
      var g :| g in groups;
      var less := groups - {g};
      PairsSize(less, n);
      ColumnSize(g, n);
      PairsSplit(groups, g, n);
      assert |groups| == |less| + 1;
      OneMoreTimes(|less|, n + 1);
    }
  }

  lemma OneMoreTimes(a: nat, b: nat)
    ensures (a + 1) * b == a * b + b
  {
  }

  lemma {:induction false} ColumnSize(g: nat, n: nat)
    ensures |Pairs({g}, n)| == n + 1
    decreases n
  {
    if n == 0 {
      assert Pairs({g}, 0) == {(g, 0)};
    } else {
      ColumnSize(g, n - 1);
      assert Pairs({g}, n) == Pairs({g}, n - 1) + {(g, n)};
      assert (g, n) !in Pairs({g}, n - 1);
    }
  }

  lemma {:induction false} ChainSize(calls: seq<(nat, nat)>)
    requires NoRepeats(calls)
    ensures |Chain(calls)| == |calls|
    decreases |calls|
  {
    if calls == [] {
      assert Chain(calls) == {};
    } else {
      var rest := calls[1..];
      ChainSize(rest);
      assert calls == [calls[0]] + rest;
      assert Chain(calls) == Chain(rest) + {calls[0]};
      assert calls[0] !in Chain(rest);
    }
  }

  lemma {:induction false} SubsetSize<T>(a: set<T>, b: set<T>)
    requires a <= b
    ensures |a| <= |b|
    decreases |a|
  {
    if a != {} {
      var x :| x in a;
      SubsetSize(a - {x}, b - {x});
    }
  }

  /** Calls nest at most once for each group at each subject position. */
  lemma DepthBound(md: MatchData, callees: set<nat>, calls: seq<(nat, nat)>)
    requires ChainOfCalls(md, callees, calls)
    ensures |calls| <= |Groups(md.code, callees)| * (|md.subject| + 1)
  {
    var groups := Groups(md.code, callees);
    ChainSize(calls);
    SubsetSize(Chain(calls), Pairs(groups, |md.subject|));
    PairsSize(groups, |md.subject|);
  }
}
