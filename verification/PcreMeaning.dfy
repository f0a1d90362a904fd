/**
 What a pattern means: which stretches of a subject its tree matches, without any options.  The options that forbid
 empty matches also reach the runs of called groups; when that makes no difference to what a pattern matches, and when
 it does.
 */
module PcreMeaning {
  import opened PcreCode
  import opened PcrePattern
  import opened PcreCorrect

  // ---------- The meaning of a tree ----------

  /** The item matches subject[i..j], with subpattern calls nested at most d deep. */
  ghost predicate SpanItem(md: MatchData, pat: Alts, item: Item, d: nat, i: nat, j: nat)
    decreases d, item, 0
  {
    match item
    case Single(t) => Sees(md, t, i) && j == i + 1
    case Repeat(t, q) => Repeats(md, t, QuantKind(q), 0, i, j)
    case Group(_, _, alts, close, zero) =>
      || (zero != NoZero && i == j)
      || (zero != SkipZero &&
          if close == OP_KET then SpanAlts(md, pat, alts, d, i, j)
          else exists n: nat :: SpanTimes(md, pat, alts, d, i, j, n))
    case Recurse(g) => d > 0 && Body(pat, g).Found? && SpanAlts(md, pat, Body(pat, g).alts, d - 1, i, j)
  }

  ghost predicate SpanBranch(md: MatchData, pat: Alts, b: Branch, d: nat, i: nat, j: nat)
    decreases d, b, 0
  {
    match b
    case Empty => i == j
    case Then(head, tail) => exists k: nat :: SpanItem(md, pat, head, d, i, k) && SpanBranch(md, pat, tail, d, k, j)
  }

  ghost predicate SpanAlts(md: MatchData, pat: Alts, alts: Alts, d: nat, i: nat, j: nat)
    decreases d, alts, 0
  {
    SpanBranch(md, pat, alts.branch, d, i, j) || (alts.Or? && SpanAlts(md, pat, alts.rest, d, i, j))
  }

  /** n + 1 matches of the alternatives, one after the other, cover subject[i..j]. */
  ghost predicate SpanTimes(md: MatchData, pat: Alts, alts: Alts, d: nat, i: nat, j: nat, n: nat)
    decreases d, alts, 1, n
  {
    if n == 0 then SpanAlts(md, pat, alts, d, i, j)
    else exists k: nat :: SpanAlts(md, pat, alts, d, i, k) && SpanTimes(md, pat, alts, d, k, j, n - 1)
  }

  /** The whole pattern matches subject[i..j]. */
  ghost predicate TreeMatches(md: MatchData, pat: Alts, i: nat, j: nat) {
    exists d: nat :: SpanAlts(md, pat, pat, d, i, j)
  }

  // ---------- Calls ----------

  /** The groups that are called. */
  function ItemCalls(item: Item): set<nat>
    decreases item
  {
    match item
    case Group(_, _, alts, _, _) => AltsCalls(alts)
    case Recurse(g) => {g}
    case _ => {}
  }

  function BranchCalls(b: Branch): set<nat>
    decreases b
  {
    match b
    case Empty => {}
    case Then(head, tail) => ItemCalls(head) + BranchCalls(tail)
  }

  function AltsCalls(alts: Alts): set<nat>
    decreases alts
  {
    BranchCalls(alts.branch) + if alts.Or? then AltsCalls(alts.rest) else {}
  }

  /** What is called inside a group is called inside the pattern. */
  lemma {:induction false} FoundInItem(item: Item, o: nat, g: nat)
    requires FindInItem(item, o, g).Found?
    ensures AltsCalls(FindInItem(item, o, g).alts) <= ItemCalls(item)
    decreases item
  {
    var b := o + if item.zero == NoZero then 0 else 1;
    if !(OpenerLength(item.open) == 5 && item.number == g) {
      FoundInAlts(item.alts, b, OpenerLength(item.open), g);
    }
  }

  lemma {:induction false} FoundInBranch(br: Branch, o: nat, g: nat)
    requires FindInBranch(br, o, g).Found?
    ensures AltsCalls(FindInBranch(br, o, g).alts) <= BranchCalls(br)
    decreases br
  {
    if FindInItem(br.head, o, g).Found? {
      FoundInItem(br.head, o, g);
    } else {
      FoundInBranch(br.tail, o + ItemSize(br.head), g);
    }
  }

  lemma {:induction false} FoundInAlts(alts: Alts, o: nat, hdr: nat, g: nat)
    requires FindInAlts(alts, o, hdr, g).Found?
    ensures AltsCalls(FindInAlts(alts, o, hdr, g).alts) <= AltsCalls(alts)
    decreases alts
  {
    if FindInBranch(alts.branch, o + hdr, g).Found? {
      FoundInBranch(alts.branch, o + hdr, g);
    } else {
      FoundInAlts(alts.rest, o + hdr + BranchSize(alts.branch), 3, g);
    }
  }

  lemma BodyCalls(pat: Alts, g: nat)
    requires Body(pat, g).Found?
    ensures AltsCalls(Body(pat, g).alts) <= AltsCalls(pat)
  {
    if g != 0 {
      FoundInAlts(pat, 0, 3, g);
    }
  }

  // ---------- Without options ----------

  function WithoutOptions(md: MatchData): MatchData {
    md.(opts := md.opts.(notEmpty := false, notEmptyAtStart := false))
  }

  /** The relation under the options is the meaning if there are none. */
  lemma {:induction false} ItemFree(md: MatchData, pat: Alts, item: Item, d: nat, i: nat, j: nat)
    ensures SpanItem(md, pat, item, d, i, j) <==> MatchItem(WithoutOptions(md), pat, item, d, i, j)
    decreases d, item, 0
  {
    match item
    case Single(_) =>
    case Repeat(t, _) => assert forall k: nat :: Sees(md, t, k) <==> Sees(WithoutOptions(md), t, k);
    case Recurse(g) =>
      if d > 0 && Body(pat, g).Found? {
        AltsFree(md, pat, Body(pat, g).alts, d - 1, i, j);
      }
    case Group(_, _, alts, close, zero) =>
      AltsFree(md, pat, alts, d, i, j);
      forall n: nat
        ensures SpanTimes(md, pat, alts, d, i, j, n) <==> MatchTimes(WithoutOptions(md), pat, alts, d, i, j, n)
      {
        TimesFree(md, pat, alts, d, i, j, n);
      }
  }

  lemma {:induction false} BranchFree(md: MatchData, pat: Alts, b: Branch, d: nat, i: nat, j: nat)
    ensures SpanBranch(md, pat, b, d, i, j) <==> MatchBranch(WithoutOptions(md), pat, b, d, i, j)
    decreases d, b, 0
  {
    if b.Then? {
      forall k: nat
        ensures SpanItem(md, pat, b.head, d, i, k) <==> MatchItem(WithoutOptions(md), pat, b.head, d, i, k)
        ensures SpanBranch(md, pat, b.tail, d, k, j) <==> MatchBranch(WithoutOptions(md), pat, b.tail, d, k, j)
      {
        ItemFree(md, pat, b.head, d, i, k);
        BranchFree(md, pat, b.tail, d, k, j);
      }
    }
  }

  lemma {:induction false} AltsFree(md: MatchData, pat: Alts, alts: Alts, d: nat, i: nat, j: nat)
    ensures SpanAlts(md, pat, alts, d, i, j) <==> MatchAlts(WithoutOptions(md), pat, alts, d, i, j)
    decreases d, alts, 0
  {
    BranchFree(md, pat, alts.branch, d, i, j);
    if alts.Or? {
      AltsFree(md, pat, alts.rest, d, i, j);
    }
  }

  lemma {:induction false} TimesFree(md: MatchData, pat: Alts, alts: Alts, d: nat, i: nat, j: nat, n: nat)
    ensures SpanTimes(md, pat, alts, d, i, j, n) <==> MatchTimes(WithoutOptions(md), pat, alts, d, i, j, n)
    decreases d, alts, 1, n
  {
    if n == 0 {
      AltsFree(md, pat, alts, d, i, j);
    } else {
      forall k: nat
        ensures SpanAlts(md, pat, alts, d, i, k) <==> MatchAlts(WithoutOptions(md), pat, alts, d, i, k)
        ensures SpanTimes(md, pat, alts, d, k, j, n - 1) <==>
                MatchTimes(WithoutOptions(md), pat, alts, d, k, j, n - 1)
      {
        AltsFree(md, pat, alts, d, i, k);
        TimesFree(md, pat, alts, d, k, j, n - 1);
      }
    }
  }

  // ---------- When the options reach no call ----------

  /** No group that is called matches the empty string where the options forbid that. */
  ghost predicate DropsNothing(md: MatchData, pat: Alts) {
    forall g <- AltsCalls(pat), p: nat, d: nat :: p <= |md.subject| && !Recordable(md, p, p) && Body(pat, g).Found? ==>
      !SpanAlts(md, pat, Body(pat, g).alts, d, p, p)
  }

  /** On the same subject, what a call may match under the options of md it may match under those of other. */
  ghost predicate Lets(md: MatchData, other: MatchData, pat: Alts) {
    && other.subject == md.subject && other.tables == md.tables
    && forall g <- AltsCalls(pat), i: nat, j: nat, d: nat ::
         (i <= |md.subject| && Body(pat, g).Found? && Recordable(md, i, j) && MatchAlts(md, pat, Body(pat, g).alts, d, i, j)
          ==> Recordable(other, i, j))
  }

  lemma {:induction false} ItemLets(md: MatchData, other: MatchData, pat: Alts, item: Item, d: nat, i: nat, j: nat)
    requires Lets(md, other, pat) && ItemCalls(item) <= AltsCalls(pat) && i <= |md.subject|
    requires MatchItem(md, pat, item, d, i, j)
    ensures MatchItem(other, pat, item, d, i, j)
    decreases d, item, 1
  {
    match item
    case Single(_) =>
    case Repeat(t, _) => assert forall k: nat :: Sees(md, t, k) <==> Sees(other, t, k);
    case Recurse(g) =>
      BodyCalls(pat, g);
      AltsLets(md, other, pat, Body(pat, g).alts, d - 1, i, j);
    case Group(_, _, alts, close, zero) =>
      if !(zero != NoZero && i == j) {
        if close == OP_KET {
          AltsLets(md, other, pat, alts, d, i, j);
        } else {
          var n: nat :| MatchTimes(md, pat, alts, d, i, j, n);
          TimesLets(md, other, pat, alts, d, i, j, n);
        }
      }
  }

  lemma {:induction false} BranchLets(md: MatchData, other: MatchData, pat: Alts, b: Branch, d: nat, i: nat, j: nat)
    requires Lets(md, other, pat) && BranchCalls(b) <= AltsCalls(pat) && i <= |md.subject|
    requires MatchBranch(md, pat, b, d, i, j)
    ensures MatchBranch(other, pat, b, d, i, j)
    decreases d, b, 0
  {
    hide Lets;
    if b.Then? {
      var k: nat :| MatchItem(md, pat, b.head, d, i, k) && MatchBranch(md, pat, b.tail, d, k, j);
      ItemBounds(md, pat, b.head, d, i, k);
      ItemLets(md, other, pat, b.head, d, i, k);
      BranchLets(md, other, pat, b.tail, d, k, j);
    }
  }

  lemma {:induction false} AltsLets(md: MatchData, other: MatchData, pat: Alts, alts: Alts, d: nat, i: nat, j: nat)
    requires Lets(md, other, pat) && AltsCalls(alts) <= AltsCalls(pat) && i <= |md.subject|
    requires MatchAlts(md, pat, alts, d, i, j)
    ensures MatchAlts(other, pat, alts, d, i, j)
    decreases d, alts, 0
  {
    hide Lets;
    if MatchBranch(md, pat, alts.branch, d, i, j) {
      BranchLets(md, other, pat, alts.branch, d, i, j);
    } else {
      AltsLets(md, other, pat, alts.rest, d, i, j);
    }
  }

  lemma {:induction false} TimesLets(md: MatchData, other: MatchData, pat: Alts, alts: Alts, d: nat, i: nat, j: nat, n: nat)
    requires Lets(md, other, pat) && AltsCalls(alts) <= AltsCalls(pat) && i <= |md.subject|
    requires MatchTimes(md, pat, alts, d, i, j, n)
    ensures MatchTimes(other, pat, alts, d, i, j, n)
    decreases d, alts, 1, n
  {
    hide Lets;
    if n == 0 {
      AltsLets(md, other, pat, alts, d, i, j);
    } else {
      var k: nat :| MatchAlts(md, pat, alts, d, i, k) && MatchTimes(md, pat, alts, d, k, j, n - 1);
      AltsBounds(md, pat, alts, d, i, k);
      AltsLets(md, other, pat, alts, d, i, k);
      TimesLets(md, other, pat, alts, d, k, j, n - 1);
    }
  }

  lemma LetsFree(md: MatchData, pat: Alts)
    ensures Lets(md, WithoutOptions(md), pat)
  {
  }

  lemma FreeLets(md: MatchData, pat: Alts)
    requires DropsNothing(md, pat)
    ensures Lets(WithoutOptions(md), md, pat)
  {
    hide MatchAlts, SpanAlts;
    var free := WithoutOptions(md);
    forall g: nat, i: nat, j: nat, d: nat |
      g in AltsCalls(pat) && i <= |md.subject| && Body(pat, g).Found? && MatchAlts(free, pat, Body(pat, g).alts, d, i, j)
      ensures Recordable(md, i, j)
    {
      AltsBounds(free, pat, Body(pat, g).alts, d, i, j);
      AltsFree(md, pat, Body(pat, g).alts, d, i, j);
    }
  }

  // ---------- The options and the meaning ----------

  /** What a run matches is always meant, and what is meant is matched if the options drop nothing. */
  lemma RunIsMeant(md: MatchData, pat: Alts, i: nat, j: nat)
    requires i <= |md.subject|
    ensures RunMatches(md, pat, i, j) ==> TreeMatches(md, pat, i, j)
    ensures DropsNothing(md, pat) ==> (RunMatches(md, pat, i, j) <==> TreeMatches(md, pat, i, j))
  {
    hide DropsNothing, MatchAlts, SpanAlts, Lets;
    var free := WithoutOptions(md);
    if RunMatches(md, pat, i, j) {
      var d: nat :| MatchAlts(md, pat, pat, d, i, j);
      LetsFree(md, pat);
      AltsLets(md, free, pat, pat, d, i, j);
      AltsFree(md, pat, pat, d, i, j);
    }
    if DropsNothing(md, pat) && TreeMatches(md, pat, i, j) {
      var d: nat :| SpanAlts(md, pat, pat, d, i, j);
      AltsFree(md, pat, pat, d, i, j);
      FreeLets(md, pat);
      AltsLets(free, md, pat, pat, d, i, j);
    }
  }

  /** A match that is meant and may be reported is reported if the options drop nothing, and nothing else ever is. */
  lemma ReportedIsMeant(md: MatchData, pat: Alts, i: nat, j: nat)
    requires i <= |md.subject|
    ensures Matches(md, pat, i, j) ==> Recordable(md, i, j) && TreeMatches(md, pat, i, j)
    ensures DropsNothing(md, pat) ==> (Matches(md, pat, i, j) <==> Recordable(md, i, j) && TreeMatches(md, pat, i, j))
  {
    hide DropsNothing, MatchAlts, TreeMatches;
    RunIsMeant(md, pat, i, j);
  }

  /** The options drop nothing if there are none, or no calls, or no called group matches an empty string. */
  lemma DropsNothingIf(md: MatchData, pat: Alts)
    requires || (!md.opts.notEmpty && !md.opts.notEmptyAtStart)
             || AltsCalls(pat) == {}
             || (forall g <- AltsCalls(pat), p: nat, d: nat :: Body(pat, g).Found? ==>
                   !SpanAlts(md, pat, Body(pat, g).alts, d, p, p))
    ensures DropsNothing(md, pat)
  {
  }

  /** A call of group g matches under the options what the group matches. */
  ghost predicate CallMeans(md: MatchData, pat: Alts, g: nat) {
    forall i: nat, j: nat, d: nat :: i <= |md.subject| ==>
      (MatchItem(md, pat, Recurse(g), d, i, j) <==> SpanItem(md, pat, Recurse(g), d, i, j))
  }

  /** All calls in the pattern match what their groups match exactly if the options drop nothing. */
  lemma CallsMeanIff(md: MatchData, pat: Alts)
    ensures (forall g <- AltsCalls(pat) :: CallMeans(md, pat, g)) <==> DropsNothing(md, pat)
  {
    hide DropsNothing, CallMeans, SpanAlts, MatchAlts;
    if DropsNothing(md, pat) {
      forall g | g in AltsCalls(pat)
        ensures CallMeans(md, pat, g)
      {
        CallMeansIf(md, pat, g);
      }
    }
    if forall g <- AltsCalls(pat) :: CallMeans(md, pat, g) {
      CallsMeanOnlyIf(md, pat);
    }
  }

  lemma CallMeansIf(md: MatchData, pat: Alts, g: nat)
    requires DropsNothing(md, pat) && g in AltsCalls(pat)
    ensures CallMeans(md, pat, g)
  {
    hide DropsNothing, SpanItem, MatchItem, Lets;
    var free := WithoutOptions(md);
    LetsFree(md, pat);
    FreeLets(md, pat);
    forall i: nat, j: nat, d: nat | i <= |md.subject|
      ensures MatchItem(md, pat, Recurse(g), d, i, j) <==> SpanItem(md, pat, Recurse(g), d, i, j)
    {
      ItemFree(md, pat, Recurse(g), d, i, j);
      if MatchItem(md, pat, Recurse(g), d, i, j) {
        ItemLets(md, free, pat, Recurse(g), d, i, j);
      }
      if MatchItem(free, pat, Recurse(g), d, i, j) {
        ItemLets(free, md, pat, Recurse(g), d, i, j);
      }
    }
  }

  lemma CallsMeanOnlyIf(md: MatchData, pat: Alts)
    requires forall g <- AltsCalls(pat) :: CallMeans(md, pat, g)
    ensures DropsNothing(md, pat)
  {
    hide SpanAlts, MatchAlts;
    forall g: nat, p: nat, d: nat | g in AltsCalls(pat) && p <= |md.subject| && !Recordable(md, p, p) && Body(pat, g).Found?
      ensures !SpanAlts(md, pat, Body(pat, g).alts, d, p, p)
    {
      assert CallMeans(md, pat, g);
      assert !MatchItem(md, pat, Recurse(g), d + 1, p, p);
      assert !SpanItem(md, pat, Recurse(g), d + 1, p, p);
    }
  }
}
