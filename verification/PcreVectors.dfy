/**
 The two state vectors of `internal_dfa_exec`, kept in the int array the caller passes as workspace:
 words 0 and 1 are for restarting, then come two vectors of three-int entries.  The ADD_ACTIVE and
 ADD_NEW macros are methods; the local variables they use are fields.
 */
module PcreVectors {
  import opened PcreScan

  /** Entry k of the vector at index base: offset (negative: waiting), count, data. */
  function Entry(ws: seq<int>, base: nat, k: nat): State
    requires base + 3 * k + 3 <= |ws|
    requires EntryOk(ws, base, k)
  {
    var x, c, d := ws[base + 3 * k], ws[base + 3 * k + 1], ws[base + 3 * k + 2];
    State(if x < 0 then -x else x, c, if x < 0 then d else 0)
  }

  predicate EntryOk(ws: seq<int>, base: nat, k: nat)
    requires base + 3 * k + 3 <= |ws|
  {
    ws[base + 3 * k + 1] >= 0 && (ws[base + 3 * k] < 0 ==> ws[base + 3 * k + 2] >= 0)
  }

  predicate EntriesOk(ws: seq<int>, base: nat, n: nat)
    requires base + 3 * n <= |ws|
  {
    forall k :: 0 <= k < n ==> EntryOk(ws, base, k)
  }

  /** The first n entries of the vector at index base. */
  function Entries(ws: seq<int>, base: nat, n: nat): (r: seq<State>)
    requires base + 3 * n <= |ws| && EntriesOk(ws, base, n)
    ensures |r| == n
  {
    seq(n, k requires 0 <= k < n => Entry(ws, base, k))
  }

  /** Entries do not depend on words outside them. */
  lemma EntriesFrame(ws: seq<int>, us: seq<int>, base: nat, n: nat)
    requires base + 3 * n <= |ws| && base + 3 * n <= |us|
    requires forall i :: base <= i < base + 3 * n ==> ws[i] == us[i]
    requires EntriesOk(ws, base, n)
    ensures EntriesOk(us, base, n) && Entries(us, base, n) == Entries(ws, base, n)
  {
    forall k | 0 <= k < n
      ensures EntryOk(us, base, k) && Entry(us, base, k) == Entry(ws, base, k)
    {
      assert EntryOk(ws, base, k);
    }
  }

  /** Entries that are copied word for word. */
  lemma EntriesMoved(ws: seq<int>, us: seq<int>, base: nat, target: nat, n: nat)
    requires base + 3 * n <= |ws| && target + 3 * n <= |us|
    requires us[target..target + 3 * n] == ws[base..base + 3 * n]
    requires EntriesOk(ws, base, n)
    ensures EntriesOk(us, target, n) && Entries(us, target, n) == Entries(ws, base, n)
  {
    forall k | 0 <= k < n
      ensures EntryOk(us, target, k) && Entry(us, target, k) == Entry(ws, base, k)
    {
      assert EntryOk(ws, base, k);
      var u, w := us[target..target + 3 * n], ws[base..base + 3 * n];
      assert u[3 * k] == w[3 * k] && u[3 * k + 1] == w[3 * k + 1] && u[3 * k + 2] == w[3 * k + 2];
    }
  }

  lemma NoEntries(ws: seq<int>, base: nat)
    requires base <= |ws|
    ensures EntriesOk(ws, base, 0) && Entries(ws, base, 0) == []
  {
  }

  lemma EntriesAppend(ws: seq<int>, us: seq<int>, base: nat, n: nat)
    requires base + 3 * n + 3 <= |ws| && |us| == |ws|
    requires forall i :: base <= i < base + 3 * n ==> ws[i] == us[i]
    requires EntriesOk(ws, base, n) && EntryOk(us, base, n)
    ensures EntriesOk(us, base, n + 1)
    ensures Entries(us, base, n + 1) == Entries(ws, base, n) + [Entry(us, base, n)]
  {
    EntriesFrame(ws, us, base, n);
  }

  /** How many entries each vector has room for (pcre_dfa_exec.c:438-440). */
  function Capacity(wscount: nat): (cap: nat)
    requires wscount >= 2
    ensures 2 + 6 * cap <= wscount < 8 + 6 * cap
  {
    ((wscount - 2) - (wscount - 2) % 6) / 6
  }

  /** The states a stopped run has left in the workspace, as restarting finds them. */
  ghost predicate SavedOk(ws: seq<int>) {
    && |ws| >= 20
    && (ws[0] == 0 || ws[0] == 1)
    && 1 <= ws[1] <= Capacity(|ws|)
    && EntriesOk(ws, SavedBase(ws), ws[1])
  }

  function SavedBase(ws: seq<int>): nat
    requires |ws| >= 2
  {
    if ws[0] == 0 then 2 else 2 + 3 * Capacity(|ws|)
  }

  function Saved(ws: seq<int>): seq<State>
    requires SavedOk(ws)
  {
    Entries(ws, SavedBase(ws), ws[1])
  }

  /** Copies n words to a place behind them. */
  method CopyWords(a: array<int>, base: nat, target: nat, n: nat)
    requires base + n <= target && target + n <= a.Length
    modifies a
    ensures forall i :: 0 <= i < a.Length ==>
              a[i] == old(a[if target <= i < target + n then base + (i - target) else i])
  {
    for k := 0 to n
      invariant forall i :: 0 <= i < a.Length ==>
                  a[i] == old(a[if target <= i < target + k then base + (i - target) else i])
    {
      a[target + k] := a[base + k];
    }
  }

  /** Brings the states a stopped run has left into the second vector. */
  method TakeUp(workspace: array<int>) returns (n: nat)
    requires SavedOk(workspace[..])
    modifies workspace
    ensures workspace[0] == 0 && n <= Capacity(workspace.Length)
    ensures var spare := 2 + 3 * Capacity(workspace.Length);
            && EntriesOk(workspace[..], spare, n)
            && Entries(workspace[..], spare, n) == old(Saved(workspace[..]))
  {
    hide EntryOk, Entries;
    ghost var was := workspace[..];
    ghost var base := SavedBase(was);
    n := workspace[1];
    var spare := 2 + 3 * Capacity(workspace.Length);
    if workspace[0] == 0 {
      CopyWords(workspace, 2, spare, 3 * n);
    }
    workspace[0] := 0;
    ghost var now := workspace[..];
    assert now[spare..spare + 3 * n] == was[base..base + 3 * n];
    EntriesMoved(was, now, base, spare, n);
  }

  class StateVectors {
    const ws: array<int>
    const cap: nat
    var active: nat
    var spare: nat
    var activeCount: nat
    var newCount: nat

    /**
     Both vectors lie behind words 0 and 1 inside the workspace and do not overlap; word 0 tells
     which one is active.
     */
    ghost predicate Valid()
      reads this, ws
    {
      && ws.Length >= 20
      && cap == Capacity(ws.Length)
      && ((active == 2 && spare == 2 + 3 * cap) || (spare == 2 && active == 2 + 3 * cap))
      && activeCount <= cap && newCount <= cap
      && ws[0] == (if active == 2 then 0 else 1)
      && EntriesOk(ws[..], active, activeCount)
      && EntriesOk(ws[..], spare, newCount)
    }

    ghost function Active(): (r: seq<State>)
      requires Valid()
      reads this, ws
      ensures |r| == activeCount
    {
      Entries(ws[..], active, activeCount)
    }

    ghost function New(): (r: seq<State>)
      requires Valid()
      reads this, ws
      ensures |r| == newCount
    {
      Entries(ws[..], spare, newCount)
    }

    /** What was active stays active, word for word; so does the bookkeeping in words 0 and 1. */
    twostate predicate Grown()
      requires old(Valid()) && Valid()
      reads this, ws
    {
      && active == old(active) && spare == old(spare)
      && old(activeCount) <= activeCount
      && ws[..2] == old(ws[..2])
      && (forall k :: active <= k < active + 3 * old(activeCount) ==> ws[k] == old(ws[k]))
    }

    /** Of the first n active states, those that do not wait have a non-negative offset. */
    ghost predicate Settled(n: nat)
      reads this, ws
      requires Valid() && n <= activeCount
    {
      forall k :: 0 <= k < n && Active()[k].wait == 0 ==> ws[active + 3 * k] >= 0
    }

    twostate lemma StillSettled(n: nat)
      requires old(Valid()) && Valid() && Grown() && n <= old(activeCount) && old(Settled(n))
      ensures Settled(n)
    {
      forall k | 0 <= k < n && Active()[k].wait == 0
        ensures ws[active + 3 * k] >= 0
      {
        assert old(Active())[k] == old(Entry(ws[..], active, k));
        assert old(EntryOk(ws[..], active, k));
      }
    }

    constructor (workspace: array<int>)
      requires workspace.Length >= 20
      modifies workspace
      ensures ws == workspace && Valid() && Active() == [] && New() == [] && active == 2
      ensures workspace[1..] == old(workspace[1..])
    {
      ws := workspace;
      cap := Capacity(workspace.Length);
      active := 2;
      spare := 2 + 3 * Capacity(workspace.Length);
      activeCount := 0;
      newCount := 0;
      new;
      ws[0] := 0;
    }

    /** Takes up the states a stopped run has left (pcre_dfa_exec.c:546-548, :569). */
    constructor Resume(workspace: array<int>)
      requires SavedOk(workspace[..])
      modifies workspace
      ensures ws == workspace && Valid() && Active() == [] && New() == old(Saved(workspace[..]))
    {
      var n := TakeUp(workspace);
      NoEntries(workspace[..], 2);
      ws := workspace;
      cap := Capacity(workspace.Length);
      active := 2;
      spare := 2 + 3 * Capacity(workspace.Length);
      activeCount := 0;
      newCount := n;
    }

    /** Writes an entry behind the last one of the vector at index base. */
    method Put(base: nat, n: nat, off: int, count: nat, data: int)
      requires base + 3 * n + 3 <= ws.Length && base >= 2
      requires EntriesOk(ws[..], base, n) && (off < 0 ==> data >= 0)
      modifies ws
      ensures ws[base + 3 * n] == off && ws[base + 3 * n + 1] == count
      ensures ws[base + 3 * n + 2] == if off < 0 then data else old(ws[base + 3 * n + 2])
      ensures forall i :: 0 <= i < ws.Length && !(base + 3 * n <= i < base + 3 * n + 3) ==> ws[i] == old(ws[i])
      ensures EntriesOk(ws[..], base, n + 1)
      ensures Entries(ws[..], base, n + 1) ==
              old(Entries(ws[..], base, n)) + [State(if off < 0 then -off else off, count, if off < 0 then data else 0)]
    {
      ghost var was := ws[..];
      ws[base + 3 * n] := off;
      ws[base + 3 * n + 1] := count;
      if off < 0 {
        ws[base + 3 * n + 2] := data;
      }
      EntriesAppend(was, ws[..], base, n);
    }

    /** ADD_ACTIVE; false stands for returning PCRE_ERROR_DFA_WSSIZE. */
    method AddActive(off: nat, count: nat) returns (ok: bool)
      requires Valid()
      modifies this`activeCount, ws
      ensures Valid() && (ok ==> Grown())
      ensures ok <==> old(activeCount) < cap
      ensures Active() == old(Active()) + if ok then [State(off, count, 0)] else []
      ensures New() == old(New())
    {
      ok := activeCount < cap;
      if ok {
        ghost var was := ws[..];
        Put(active, activeCount, off, count, 0);
        EntriesFrame(was, ws[..], spare, newCount);
        activeCount := activeCount + 1;
      } else {
        assert Active() == old(Active());
      }
    }

    /** ADD_NEW. */
    method AddNew(off: nat, count: nat) returns (ok: bool)
      requires Valid()
      modifies this`newCount, ws
      ensures Valid() && (ok ==> Grown())
      ensures ok <==> old(newCount) < cap
      ensures New() == old(New()) + if ok then [State(off, count, 0)] else []
      ensures Active() == old(Active())
    {
      ok := newCount < cap;
      if ok {
        ghost var was := ws[..];
        Put(spare, newCount, off, count, 0);
        EntriesFrame(was, ws[..], active, activeCount);
        newCount := newCount + 1;
      } else {
        assert New() == old(New());
      }
    }

    /** ADD_NEW_DATA with a negated offset: the state starts after `wait` more characters. */
    method AddWaiting(off: nat, count: nat, wait: nat) returns (ok: bool)
      requires Valid() && off > 0
      modifies this`newCount, ws
      ensures Valid() && (ok ==> Grown())
      ensures ok <==> old(newCount) < cap
      ensures New() == old(New()) + if ok then [State(off, count, wait)] else []
      ensures Active() == old(Active())
    {
      ok := newCount < cap;
      if ok {
        ghost var was := ws[..];
        Put(spare, newCount, 0 - off, count, wait);
        EntriesFrame(was, ws[..], active, activeCount);
        newCount := newCount + 1;
      } else {
        assert New() == old(New());
      }
    }

    /** Takes back the last active state. */
    method DropActive()
      requires Valid() && activeCount > 0
      modifies this`activeCount
      ensures Valid() && activeCount == old(activeCount) - 1
      ensures Active() == old(Active())[..old(activeCount) - 1]
      ensures New() == old(New())
    {
      activeCount := activeCount - 1;
    }

    /**
     Negative offsets hold off (pcre_dfa_exec.c:654-673): an entry that has waited long enough gets
     its offset back.  Returns the offset, and how much longer the entry waits.
     */
    method Settle(k: nat) returns (off: nat, wait: nat)
      requires Valid() && k < activeCount && Settled(k)
      modifies ws
      ensures Valid() && active == old(active) && spare == old(spare) && ws[..2] == old(ws[..2])
      ensures Active() == old(Active()) && New() == old(New())
      ensures off == Active()[k].off && wait == Active()[k].wait && (wait > 0 ==> off > 0)
      ensures Settled(k + 1)
    {
      ghost var was := ws[..];
      assert EntryOk(ws[..], active, k) && Active()[k] == Entry(ws[..], active, k);
      var x := ws[active + 3 * k];
      if x < 0 {
        off, wait := 0 - x, ws[active + 3 * k + 2];
        if wait == 0 {
          SettleEntry(k);
        }
      } else {
        off, wait := x, 0;
      }
    }

    method SettleEntry(k: nat)
      requires Valid() && k < activeCount && Settled(k)
      requires ws[active + 3 * k] < 0 && ws[active + 3 * k + 2] == 0
      modifies ws
      ensures Valid() && old(activeCount) == activeCount && active == old(active) && spare == old(spare)
      ensures Active() == old(Active()) && New() == old(New())
      ensures Settled(k + 1) && ws[..2] == old(ws[..2])
    {
      ghost var was := ws[..];
      ws[active + 3 * k] := 0 - ws[active + 3 * k];
      EntriesFrame(was, ws[..], spare, newCount);
      forall j | 0 <= j < activeCount
        ensures EntryOk(ws[..], active, j) && Entry(ws[..], active, j) == Entry(was, active, j)
      {
        assert EntryOk(was, active, j);
      }
    }

    function CountAt(k: nat): int
      reads this, ws
      requires Valid() && k < activeCount
    {
      ws[active + 3 * k + 1]
    }

    /** Whether an earlier active state is the same (pcre_dfa_exec.c:679-687). */
    method IsDuplicate(i: nat, off: nat, count: nat) returns (dup: bool)
      requires Valid() && i <= activeCount && Settled(i)
      ensures dup <==> exists j :: 0 <= j < i && Active()[j] == State(off, count, 0)
    {
      for j := 0 to i
        invariant forall k :: 0 <= k < j ==> Active()[k] != State(off, count, 0)
      {
        assert EntryOk(ws[..], active, j) && Active()[j] == Entry(ws[..], active, j);
        if ws[active + 3 * j] == off && ws[active + 3 * j + 1] == count {
          return true;
        }
      }
      return false;
    }

    /** Makes the new states the active ones and empties the new list (pcre_dfa_exec.c:589-596). */
    method Swap()
      requires Valid()
      modifies this`active, this`spare, this`activeCount, this`newCount, ws
      ensures Valid()
      ensures Active() == old(New()) && New() == []
      ensures ws[1] == activeCount && active == old(spare)
    {
      ghost var was := ws[..];
      active, spare := spare, active;
      activeCount := newCount;
      newCount := 0;
      ws[0] := if ws[0] == 0 then 1 else 0;
      ws[1] := activeCount;
      EntriesFrame(was, ws[..], active, activeCount);
    }
  }
}
