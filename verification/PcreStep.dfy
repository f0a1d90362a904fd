/** Acting on one active state: the switch over opcodes in `internal_dfa_exec`. */
module PcreStep {
  import opened Bytes
  import opened PcreCode
  import opened PcreScan
  import opened PcreVectors

  function States(ts: seq<nat>): (r: seq<State>)
    ensures |r| == |ts|
  {
    seq(|ts|, k requires 0 <= k < |ts| => State(ts[k], 0, 0))
  }

  /** What a repeat adds to the active states and to the new states. */
  function RepActs(kind: RepKind, count: nat, next: nat, seen: bool): seq<State> {
    if MayLeave(kind, count, seen) then [State(next, 0, 0)] else []
  }

  function RepNews(kind: RepKind, o: nat, count: nat, next: nat, seen: bool): seq<State> {
    if !seen then []
    else if Exhausts(kind, count) then [State(next, 0, 0)]
    else [State(o, if kind.counted then count + 1 else 0, 0)]
  }

  function StepActs(md: MatchData, p: nat, o: nat, count: nat): seq<State> {
    match Decode(md.code, o)
    case Eps(ts) => States(ts)
    case Rep(t, kind, next) => RepActs(kind, count, next, Sees(md, t, p))
    case _ => []
  }

  function StepNews(md: MatchData, p: nat, o: nat, count: nat): seq<State> {
    match Decode(md.code, o)
    case One(t, next) => if Sees(md, t, p) then [State(next, 0, 0)] else []
    case Rep(t, kind, next) => RepNews(kind, o, count, next, Sees(md, t, p))
    case _ => []
  }

  /** What is added is what may follow. */
  lemma StepIsEdges(md: MatchData, end: nat, p: nat, o: nat, count: nat, y: State)
    requires o != end && !Decode(md.code, o).Call?
    ensures ActEdge(md, end, p, State(o, count, 0), y) <==> y in StepActs(md, p, o, count)
    ensures NewEdge(md, end, p, State(o, count, 0), y) <==> y in StepNews(md, p, o, count)
  {
    hide Decode, Sees, MayLeave, Exhausts;
    var ins := Decode(md.code, o);
    if ins.Eps? {
      if y.wait == 0 && y.count == 0 && y.off in ins.targets {
        var k :| 0 <= k < |ins.targets| && ins.targets[k] == y.off;
        assert States(ins.targets)[k] == y;
      }
    }
  }

  /** A method that adds to the vectors has done so, or has run out of room. */
  twostate predicate Added(v: StateVectors, ok: bool, acts: seq<State>, news: seq<State>)
    requires old(v.Valid())
    reads v, v.ws
  {
    && v.Valid()
    && (ok ==> v.Grown() && v.Active() == old(v.Active()) + acts && v.New() == old(v.New()) + news)
    && (!ok ==> old(v.activeCount) + |acts| >= v.cap || old(v.newCount) + |news| >= v.cap)
  }

  // ---------- Brackets ----------

  /** Follows the links from a bracket opener or an ALT until they lead to something else than an ALT. */
  method FollowLinks(code: seq<byte>, o: nat) returns (e: nat)
    requires ChainOk(code, o)
    ensures e == ChainEnd(code, o)
  {
    e := o + Get(code, o + 1);
    while code[e] == OP_ALT
      invariant o < e < |code|
      invariant code[e] == OP_ALT ==> ChainOk(code, e)
      invariant ChainEnd(code, o) == if code[e] == OP_ALT then ChainEnd(code, e) else e
      decreases |code| - e
    {
      e := e + Get(code, e + 1);
    }
  }

  method AddTarget(v: StateVectors, t: nat) returns (ok: bool)
    requires v.Valid()
    modifies v`activeCount, v.ws
    ensures Added(v, ok, States([t]), [])
  {
    ok := v.AddActive(t, 0);
    assert States([t]) == [State(t, 0, 0)];
  }

  method AddTargets(v: StateVectors, t: nat, u: nat) returns (ok: bool)
    requires v.Valid()
    modifies v`activeCount, v.ws
    ensures Added(v, ok, States([t, u]), [])
  {
    ok := v.AddActive(t, 0);
    if ok {
      ok := v.AddActive(u, 0);
    }
    assert States([t, u]) == [State(t, 0, 0)] + [State(u, 0, 0)];
  }

  /** The branch starts from the link at e on, if there is a further branch. */
  ghost function Rest(code: seq<byte>, e: nat): seq<nat> {
    if e < |code| && code[e] == OP_ALT then [e + 3] + AltStarts(code, e) else []
  }

  /** The walk over the links is at e, with the branch starts `done` behind it. */
  ghost predicate Walked(code: seq<byte>, o: nat, first: nat, e: nat, done: seq<nat>) {
    && o < e < |code|
    && (code[e] == OP_ALT ==> ChainOk(code, e))
    && [first] + AltStarts(code, o) == done + Rest(code, e)
  }

  lemma WalkStarts(code: seq<byte>, o: nat, first: nat)
    requires ChainOk(code, o)
    ensures Walked(code, o, first, o + Get(code, o + 1), [first])
    ensures States([first]) == [State(first, 0, 0)]
  {
    hide Get;
  }

  lemma WalkGoesOn(code: seq<byte>, o: nat, first: nat, e: nat, done: seq<nat>)
    requires Walked(code, o, first, e, done) && code[e] == OP_ALT
    ensures e < e + Get(code, e + 1) && Walked(code, o, first, e + Get(code, e + 1), done + [e + 3])
    ensures States(done + [e + 3]) == States(done) + [State(e + 3, 0, 0)]
    ensures |done| < |[first] + AltStarts(code, o)|
  {
    hide Get;
  }

  lemma WalkEnds(code: seq<byte>, o: nat, first: nat, e: nat, done: seq<nat>)
    requires Walked(code, o, first, e, done) && code[e] != OP_ALT
    ensures done == [first] + AltStarts(code, o)
  {
    hide AltStarts;
  }

  /** OP_BRA and OP_CBRA: every branch becomes active. */
  method AddBranches(v: StateVectors, code: seq<byte>, o: nat, first: nat) returns (ok: bool)
    requires v.Valid() && ChainOk(code, o)
    modifies v`activeCount, v.ws
    ensures Added(v, ok, States([first] + AltStarts(code, o)), [])
  {
    hide AltStarts, ChainOk, Get, States, Walked;
    ok := v.AddActive(first, 0);
    if !ok { return; }
    var e := o + Get(code, o + 1);
    ghost var done: seq<nat> := [first];
    WalkStarts(code, o, first);
    while At(code, e) == OP_ALT
      invariant v.Valid() && v.Grown() && Walked(code, o, first, e, done)
      invariant v.Active() == old(v.Active()) + States(done) && v.New() == old(v.New())
      decreases |code| - e
    {
      WalkInside(code, o, first, e, done);
      WalkGoesOn(code, o, first, e, done);
      ok := v.AddActive(e + 3, 0);
      if !ok { return; }
      done := done + [e + 3];
      e := e + Get(code, e + 1);
    }
    WalkInside(code, o, first, e, done);
    WalkEnds(code, o, first, e, done);
  }

  lemma WalkInside(code: seq<byte>, o: nat, first: nat, e: nat, done: seq<nat>)
    requires Walked(code, o, first, e, done)
    ensures e < |code| && At(code, e) == code[e]
  {
    hide AltStarts, ChainOk, Rest;
  }

  /** OP_KET, OP_KETRMAX, OP_KETRMIN and OP_ALT. */
  method StepEnd(v: StateVectors, md: MatchData, p: nat, o: nat, count: nat) returns (ok: bool)
    requires v.Valid() && InstrOk(md.code, o) && OP_ALT <= At(md.code, o) <= OP_KETRMIN
    modifies v`activeCount, v.ws
    ensures Added(v, ok, StepActs(md, p, o, count), StepNews(md, p, o, count))
  {
    hide ChainEnd, Get, DecodeRepeat, DecodeClass, States, ChainOk;
    var op := At(md.code, o);
    if op == OP_KET {
      ok := AddTarget(v, o + 3);
    } else if op == OP_ALT {
      var e := FollowLinks(md.code, o);
      ok := AddTarget(v, e);
    } else {
      ok := AddTargets(v, o + 3, o - Get(md.code, o + 1));
    }
  }

  /** OP_BRAZERO, OP_BRAMINZERO and OP_SKIPZERO. */
  method StepZero(v: StateVectors, md: MatchData, p: nat, o: nat, count: nat) returns (ok: bool)
    requires v.Valid() && InstrOk(md.code, o)
    requires At(md.code, o) == OP_BRAZERO || At(md.code, o) == OP_BRAMINZERO || At(md.code, o) == OP_SKIPZERO
    modifies v`activeCount, v.ws
    ensures Added(v, ok, StepActs(md, p, o, count), StepNews(md, p, o, count))
  {
    hide ChainEnd, Get, DecodeRepeat, DecodeClass, States, ChainOk;
    var e := FollowLinks(md.code, o + 1);
    if At(md.code, o) == OP_SKIPZERO {
      ok := AddTarget(v, e + 3);
    } else {
      ok := AddTargets(v, o + 1, e + 3);
    }
  }

  method StepBracket(v: StateVectors, md: MatchData, p: nat, o: nat, count: nat) returns (ok: bool)
    requires v.Valid() && InstrOk(md.code, o) && At(md.code, o) > OP_RECURSE
    modifies v`activeCount, v.ws
    ensures Added(v, ok, StepActs(md, p, o, count), StepNews(md, p, o, count))
  {
    hide AltStarts, ChainEnd, Get, DecodeRepeat, DecodeClass, States, ChainOk;
    var op := At(md.code, o);
    if op == OP_BRA || op == OP_SBRA {
      ok := AddBranches(v, md.code, o, o + 3);
    } else if op == OP_CBRA || op == OP_SCBRA {
      ok := AddBranches(v, md.code, o, o + 5);
    } else if op <= OP_KETRMIN {
      ok := StepEnd(v, md, p, o, count);
    } else {
      ok := StepZero(v, md, p, o, count);
    }
  }

  // ---------- Single characters ----------

  method AddIf(v: StateVectors, matched: bool, next: nat) returns (ok: bool)
    requires v.Valid()
    modifies v`newCount, v.ws
    ensures Added(v, ok, [], if matched then [State(next, 0, 0)] else [])
  {
    ok := true;
    if matched {
      ok := v.AddNew(next, 0);
    }
  }

  /** OP_ANY to OP_WORDCHAR, OP_CHAR to OP_NOTI. */
  method StepChar(v: StateVectors, md: MatchData, p: nat, o: nat, count: nat) returns (ok: bool)
    requires v.Valid() && InstrOk(md.code, o) && At(md.code, o) < OP_STAR
    modifies v`newCount, v.ws
    ensures Added(v, ok, StepActs(md, p, o, count), StepNews(md, p, o, count))
  {
    hide DecodeRepeat, DecodeClass, TypeBit;
    var op := md.code[o];
    var tb := md.tables;
    if p >= |md.subject| {
      return true;
    }
    var c := md.subject[p];
    if op == OP_CHAR {
      ok := AddIf(v, c == md.code[o + 1], o + 2);
    } else if op == OP_CHARI {
      ok := AddIf(v, tb.lcc[c] == tb.lcc[md.code[o + 1]], o + 2);
    } else if op == OP_NOT {
      ok := AddIf(v, c != md.code[o + 1], o + 2);
    } else if op == OP_NOTI {
      var d := md.code[o + 1];
      ok := AddIf(v, c != d && c != tb.fcc[d], o + 2);
    } else {
      ok := AddIf(v, (op != OP_ANY || c != tb.nl) && TypeBit(tb.ctypes[c], op), o + 1);
    }
  }

  // ---------- Repeats ----------

  /** A repeat that goes on until the test fails. */
  method StepStar(v: StateVectors, o: nat, next: nat, matched: bool, possessive: bool, ghost count: nat)
    returns (ok: bool)
    requires v.Valid()
    modifies v`activeCount, v`newCount, v.ws
    ensures var kind := RepKind(0, 0, possessive, false);
            Added(v, ok, RepActs(kind, count, next, matched), RepNews(kind, o, count, next, matched))
  {
    ok := v.AddActive(next, 0);
    if ok && matched {
      if possessive {
        v.DropActive();
      }
      ok := v.AddNew(o, 0);
    }
  }

  method StepPlus(v: StateVectors, o: nat, next: nat, matched: bool, possessive: bool, count: nat) returns (ok: bool)
    requires v.Valid()
    modifies v`activeCount, v`newCount, v.ws
    ensures var kind := RepKind(1, 0, possessive, true);
            Added(v, ok, RepActs(kind, count, next, matched), RepNews(kind, o, count, next, matched))
  {
    ok := true;
    if count > 0 {
      ok := v.AddActive(next, 0);
    }
    if ok && matched {
      if count > 0 && possessive {
        v.DropActive();
      }
      ok := v.AddNew(o, count + 1);
    }
  }

  method StepQuery(v: StateVectors, o: nat, next: nat, matched: bool, possessive: bool, ghost count: nat)
    returns (ok: bool)
    requires v.Valid()
    modifies v`activeCount, v`newCount, v.ws
    ensures var kind := RepKind(0, 1, possessive, true);
            Added(v, ok, RepActs(kind, count, next, matched), RepNews(kind, o, count, next, matched))
  {
    ok := v.AddActive(next, 0);
    if ok && matched {
      if possessive {
        v.DropActive();
      }
      ok := v.AddNew(next, 0);
    }
  }

  method StepExact(v: StateVectors, o: nat, next: nat, matched: bool, n: nat, count: nat) returns (ok: bool)
    requires v.Valid() && n > 0
    requires count < n
    modifies v`newCount, v.ws
    ensures var kind := RepKind(n, n, false, true);
            Added(v, ok, RepActs(kind, count, next, matched), RepNews(kind, o, count, next, matched))
  {
    ok := true;
    if matched {
      if count + 1 >= n {
        ok := v.AddNew(next, 0);
      } else {
        ok := v.AddNew(o, count + 1);
      }
    }
  }

  method StepUpto(v: StateVectors, o: nat, next: nat, matched: bool, possessive: bool, n: nat, count: nat)
    returns (ok: bool)
    requires v.Valid() && n > 0
    modifies v`activeCount, v`newCount, v.ws
    ensures var kind := RepKind(0, n, possessive, true);
            Added(v, ok, RepActs(kind, count, next, matched), RepNews(kind, o, count, next, matched))
  {
    ok := v.AddActive(next, 0);
    if ok && matched {
      if possessive {
        v.DropActive();
      }
      if count + 1 >= n {
        ok := v.AddNew(next, 0);
      } else {
        ok := v.AddNew(o, count + 1);
      }
    }
  }

  /** OP_CRRANGE and OP_CRMINRANGE; max 0 is no limit. */
  method StepRange(v: StateVectors, o: nat, next: nat, matched: bool, min: nat, max: nat, count: nat)
    returns (ok: bool)
    requires v.Valid()
    modifies v`activeCount, v`newCount, v.ws
    ensures var kind := RepKind(min, max, false, true);
            Added(v, ok, RepActs(kind, count, next, matched), RepNews(kind, o, count, next, matched))
  {
    ok := true;
    if count >= min {
      ok := v.AddActive(next, 0);
    }
    if ok && matched {
      if count + 1 >= max && max != 0 {
        ok := v.AddNew(next, 0);
      } else {
        ok := v.AddNew(o, count + 1);
      }
    }
  }

  /** One of the 13 repeats of a set, at its place k in the set. */
  method StepRepeatKind(v: StateVectors, k: nat, n: nat, o: nat, next: nat, matched: bool, count: nat)
    returns (ok: bool)
    requires v.Valid() && k < REPEATS && (HasBound(k) ==> n > 0)
    requires k == EXACT ==> count < n
    modifies v`activeCount, v`newCount, v.ws
    ensures var kind := RepeatKind(k, n);
            Added(v, ok, RepActs(kind, count, next, matched), RepNews(kind, o, count, next, matched))
  {
    hide RepActs, RepNews;
    if k == 0 || k == MINSTAR || k == POSSTAR {
      ok := StepStar(v, o, next, matched, k == POSSTAR, count);
    } else if k == PLUS || k == MINPLUS || k == POSPLUS {
      ok := StepPlus(v, o, next, matched, k == POSPLUS, count);
    } else if k == QUERY || k == MINQUERY || k == POSQUERY {
      ok := StepQuery(v, o, next, matched, k == POSQUERY, count);
    } else if k == EXACT {
      ok := StepExact(v, o, next, matched, n, count);
    } else {
      ok := StepUpto(v, o, next, matched, k == POSUPTO, n, count);
    }
  }

  /** The single-character and character-type repeats (pcre_dfa_exec.c:1163-1312, :2307-2527). */
  method StepRepeat(v: StateVectors, md: MatchData, p: nat, o: nat, count: nat) returns (ok: bool)
    requires v.Valid() && InstrOk(md.code, o) && OP_STAR <= At(md.code, o) < OP_CRSTAR
    requires CountOk(md.code, o, count)
    modifies v`activeCount, v`newCount, v.ws
    ensures Added(v, ok, StepActs(md, p, o, count), StepNews(md, p, o, count))
  {
    hide RepActs, RepNews, RepeatKind, DecodeBracket, DecodeClass, TypeBit, Get;
    var code, tb := md.code, md.tables;
    var k := (code[o] - OP_STAR) % REPEATS;
    var family := (code[o] - OP_STAR) / REPEATS;
    var w := if HasBound(k) then 2 else 0;
    var d := code[o + 1 + w];
    var matched := false;
    if p < |md.subject| {
      var c := md.subject[p];
      if family == 4 {
        matched := (d != OP_ANY || c != tb.nl) && TypeBit(tb.ctypes[c], d);
      } else {
        var caseless := family == 1 || family == 3;
        matched := (c == d || (caseless && c == tb.fcc[d])) == (family < 2);
      }
    }
    assert Decode(code, o) == DecodeRepeat(code, o);
    assert matched == Sees(md, Decode(code, o).test, p);
    ExactCount(code, o, count);
    ok := StepRepeatKind(v, k, Get(code, o + 1), o, o + 2 + w, matched, count);
  }

  lemma ExactCount(code: seq<byte>, o: nat, count: nat)
    requires InstrOk(code, o) && OP_STAR <= At(code, o) < OP_CRSTAR && CountOk(code, o, count)
    ensures HasBound((At(code, o) - OP_STAR) % REPEATS) ==> Get(code, o + 1) > 0
    ensures (At(code, o) - OP_STAR) % REPEATS == EXACT ==> count < Get(code, o + 1)
  {
    hide Get;
    assert Decode(code, o) == DecodeRepeat(code, o);
  }

  /** A repeat state has not used up its repeat; other states have count 0. */
  predicate CountOk(code: seq<byte>, o: nat, count: nat) {
    var ins := Decode(code, o);
    if ins.Rep? then (ins.kind.max != 0 ==> count < ins.kind.max) else count == 0
  }

  /** The bit of character c is set in the class at o. */
  predicate InClass(code: seq<byte>, o: nat, c: byte)
    requires o + 33 <= |code|
  {
    HasBit(code[o + 1 + c / 8], c % 8)
  }

  /** OP_CLASS and OP_NCLASS with their repeats (pcre_dfa_exec.c:2533-2645). */
  method StepClass(v: StateVectors, md: MatchData, p: nat, o: nat, count: nat) returns (ok: bool)
    requires v.Valid() && InstrOk(md.code, o)
    requires At(md.code, o) == OP_CLASS || At(md.code, o) == OP_NCLASS
    modifies v`activeCount, v`newCount, v.ws
    ensures Added(v, ok, StepActs(md, p, o, count), StepNews(md, p, o, count))
  {
    hide RepActs, RepNews, DecodeBracket, DecodeRepeat, HasBit, Get;
    var code := md.code;
    var inClass := false;
    if p < |md.subject| {
      inClass := InClass(code, o, md.subject[p]);
    }
    assert Decode(code, o) == DecodeClass(code, o);
    assert inClass == Sees(md, Decode(code, o).test, p) by {
      if p < |md.subject| {
        var c := md.subject[p];
        assert c / 8 < 32 && code[o + 1..o + 33][c / 8] == code[o + 1 + c / 8];
      }
    }
    var e := code[o + 33];
    if e == OP_CRSTAR || e == OP_CRMINSTAR || e == OP_CRPOSSTAR {
      ok := StepStar(v, o, o + 34, inClass, e == OP_CRPOSSTAR, count);
    } else if e == OP_CRPLUS || e == OP_CRMINPLUS || e == OP_CRPOSPLUS {
      ok := StepPlus(v, o, o + 34, inClass, e == OP_CRPOSPLUS, count);
    } else if e == OP_CRQUERY || e == OP_CRMINQUERY || e == OP_CRPOSQUERY {
      ok := StepQuery(v, o, o + 34, inClass, e == OP_CRPOSQUERY, count);
    } else if e == OP_CRRANGE || e == OP_CRMINRANGE {
      ok := StepRange(v, o, o + 38, inClass, Get(code, o + 34), Get(code, o + 36), count);
    } else {
      ok := AddIf(v, inClass, o + 33);
    }
  }

  /** Every opcode but the closing one of the run and subpattern calls. */
  method StepState(v: StateVectors, md: MatchData, p: nat, o: nat, count: nat) returns (ok: bool)
    requires v.Valid() && InstrOk(md.code, o) && !Decode(md.code, o).Call? && CountOk(md.code, o, count)
    modifies v`activeCount, v`newCount, v.ws
    ensures Added(v, ok, StepActs(md, p, o, count), StepNews(md, p, o, count))
  {
    hide StepActs, StepNews, DecodeClass, DecodeRepeat, CountOk;
    var op := md.code[o];
    if op < OP_STAR {
      ok := StepChar(v, md, p, o, count);
    } else if op < OP_CRSTAR {
      ok := StepRepeat(v, md, p, o, count);
    } else if op == OP_CLASS || op == OP_NCLASS {
      ok := StepClass(v, md, p, o, count);
    } else {
      ok := StepBracket(v, md, p, o, count);
    }
  }
}
