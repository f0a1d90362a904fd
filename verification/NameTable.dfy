/**
 The table of named groups of a compiled pattern: entries of a fixed size, each a number in two bytes and a name
 that ends in a zero, sorted by name; and the searches in it, which must cope with a name that occurs several times.
 */
module NameTable {
  import opened Bytes

  const PCRE_ERROR_NOSUBSTRING := -7

  /** The C string at o. */
  function CString(t: seq<byte>, o: nat): (r: seq<byte>)
    ensures 0 !in r
    decreases if o < |t| then |t| - o else 0
  {
    if o >= |t| || t[o] == 0 then [] else [t[o]] + CString(t, o + 1)
  }

  /** strcmp: how the first bytes that differ compare, with the zeros at the ends. */
  function Compare(a: seq<byte>, b: seq<byte>): int {
    if a != [] && b != [] && a[0] == b[0] then Compare(a[1..], b[1..]) else At(a, 0) - At(b, 0)
  }

  /** The table: where entry k is, its number and its name. What follows the entries is the code of the pattern. */
  datatype Table = Table(bytes: seq<byte>, entrysize: nat, count: nat) {
    function Offset(k: nat): nat {
      entrysize * k
    }

    function Number(k: nat): nat {
      Get(bytes, Offset(k))
    }

    function Name(k: nat): seq<byte> {
      CString(bytes, Offset(k) + 2)
    }

    ghost predicate InOrder(k: nat) {
      Compare(Name(k), Name(k + 1)) <= 0
    }

    /** Each entry is followed by one with the same name or a greater one. */
    ghost predicate Valid() {
      entrysize > 0 && forall k :: 0 <= k < count - 1 ==> InOrder(k)
    }

    ghost predicate Has(name: seq<byte>) {
      exists k :: 0 <= k < count && Name(k) == name
    }

    /** first..last are the entries with the name: all of them, and only they. */
    ghost predicate IsRun(name: seq<byte>, first: nat, last: nat) {
      && first <= last < count
      && forall k :: 0 <= k < count ==> (Name(k) == name <==> first <= k <= last)
    }
  }

  // ---------- strcmp is an order ----------

  lemma {:induction false} CompareIsEquality(a: seq<byte>, b: seq<byte>)
    requires 0 !in a && 0 !in b
    ensures Compare(a, b) == 0 <==> a == b
    ensures Compare(a, b) < 0 <==> Compare(b, a) > 0
  {
    if a != [] && b != [] && a[0] == b[0] {
      CompareIsEquality(a[1..], b[1..]);
      assert a == [a[0]] + a[1..] && b == [b[0]] + b[1..];
    } else if a != [] {
      assert a[0] in a;
      if b != [] {
        assert b[0] in b;
      }
    } else if b != [] {
      assert b[0] in b;
    }
  }

  lemma {:induction false} CompareIsTransitive(a: seq<byte>, b: seq<byte>, c: seq<byte>)
    requires 0 !in a && 0 !in b && 0 !in c
    requires Compare(a, b) <= 0 && Compare(b, c) <= 0
    ensures Compare(a, c) <= 0
    ensures Compare(a, b) < 0 || Compare(b, c) < 0 ==> Compare(a, c) < 0
  {
    if a != [] && b != [] && c != [] && a[0] == b[0] == c[0] {
      CompareIsTransitive(a[1..], b[1..], c[1..]);
    } else {
      assert a != [] ==> a[0] in a;
      assert b != [] ==> b[0] in b;
      assert c != [] ==> c[0] in c;
    }
  }

  /** The table is sorted throughout. */
  lemma {:induction false} Sorted(t: Table, i: nat, j: nat)
    requires t.Valid() && i <= j < t.count
    ensures Compare(t.Name(i), t.Name(j)) <= 0
    decreases j - i
  {
    CompareIsEquality(t.Name(i), t.Name(i));
    if i < j {
      Sorted(t, i, j - 1);
      assert t.InOrder(j - 1);
      CompareIsTransitive(t.Name(i), t.Name(j - 1), t.Name(j));
    }
  }

  /** A name that is greater than one entry is greater than all before it, and likewise the other way. */
  lemma Aside(t: Table, name: seq<byte>, mid: nat, k: nat)
    requires t.Valid() && mid < t.count && k < t.count && 0 !in name
    ensures Compare(name, t.Name(mid)) > 0 && k <= mid ==> t.Name(k) != name
    ensures Compare(name, t.Name(mid)) < 0 && mid <= k ==> t.Name(k) != name
  {
    CompareIsEquality(name, t.Name(mid));
    CompareIsEquality(t.Name(k), name);
    if k <= mid {
      Sorted(t, k, mid);
    }
    if mid <= k {
      Sorted(t, mid, k);
    }
  }

  /** What lies between two entries with the name has it too. */
  lemma Between(t: Table, name: seq<byte>, i: nat, k: nat, j: nat)
    requires t.Valid() && 0 !in name
    requires i <= k <= j < t.count
    ensures t.Name(i) == name && t.Name(j) == name ==> t.Name(k) == name
  {
    Sorted(t, i, k);
    Sorted(t, k, j);
    CompareIsEquality(t.Name(k), name);
    CompareIsEquality(name, t.Name(k));
  }

  // ---------- What the bytes of a table are ----------

  /** An entry: the number in two bytes, the high one first, the name, and zeros. */
  datatype Group = Group(number: nat, name: seq<byte>)

  predicate GroupOk(g: Group, entrysize: nat) {
    g.number < 65536 && 0 !in g.name && |g.name| + 3 <= entrysize
  }

  function GroupBytes(g: Group, entrysize: nat): (r: seq<byte>)
    requires GroupOk(g, entrysize)
    ensures |r| == entrysize
  {
    [g.number / 256, g.number % 256] + g.name + seq(entrysize - 2 - |g.name|, _ => 0)
  }

  function GroupsBytes(gs: seq<Group>, entrysize: nat): (r: seq<byte>)
    requires forall k :: 0 <= k < |gs| ==> GroupOk(gs[k], entrysize)
    ensures |r| == entrysize * |gs|
  {
    if gs == [] then [] else
    var init := GroupsBytes(gs[..|gs| - 1], entrysize);
    OneMore(entrysize, |gs| - 1);
    init + GroupBytes(gs[|gs| - 1], entrysize)
  }

  lemma OneMore(a: nat, b: nat)
    ensures a * (b + 1) == a * b + a
  {
  }

  lemma {:induction false} GroupAt(gs: seq<Group>, entrysize: nat, k: nat)
    requires forall k :: 0 <= k < |gs| ==> GroupOk(gs[k], entrysize)
    requires k < |gs|
    ensures HasAt(GroupsBytes(gs, entrysize), entrysize * k, GroupBytes(gs[k], entrysize))
    decreases |gs|
  {
    hide GroupBytes, GroupOk, HasAt;
    var n := |gs| - 1;
    var init, last := GroupsBytes(gs[..n], entrysize), GroupBytes(gs[n], entrysize);
    assert GroupsBytes(gs, entrysize) == init + last;
    if k < n {
      GroupAt(gs[..n], entrysize, k);
      StaysAt(init, last, entrysize * k, GroupBytes(gs[k], entrysize));
    } else {
      IsAtEnd(init, last);
    }
  }

  lemma StaysAt(text: seq<byte>, more: seq<byte>, o: nat, f: seq<byte>)
    requires HasAt(text, o, f)
    ensures HasAt(text + more, o, f)
  {
    assert (text + more)[o..o + |f|] == text[o..o + |f|];
  }

  lemma IsAtEnd(text: seq<byte>, more: seq<byte>)
    ensures HasAt(text + more, |text|, more)
  {
  }

  lemma {:induction false} NameEnds(t: seq<byte>, o: nat, name: seq<byte>)
    requires HasAt(t, o, name + [0]) && 0 !in name
    ensures CString(t, o) == name
    decreases |name|
  {
    HasAtByte(t, o, name + [0], 0);
    if name != [] {
      assert name + [0] == [name[0]] + (name[1..] + [0]);
      HasAtSplit(t, o, [name[0]], name[1..] + [0]);
      NameEnds(t, o + 1, name[1..]);
    }
  }

  /** A table of these groups, with any code behind it, has their numbers and their names. */
  lemma TableMeans(gs: seq<Group>, entrysize: nat, code: seq<byte>, k: nat)
    requires forall k :: 0 <= k < |gs| ==> GroupOk(gs[k], entrysize)
    requires k < |gs|
    ensures var t := Table(GroupsBytes(gs, entrysize) + code, entrysize, |gs|);
            t.Number(k) == gs[k].number && t.Name(k) == gs[k].name
  {
    hide GroupsBytes, CString;
    var bytes, g, o := GroupsBytes(gs, entrysize) + code, gs[k], entrysize * k;
    GroupAt(gs, entrysize, k);
    StaysAt(GroupsBytes(gs, entrysize), code, o, GroupBytes(g, entrysize));
    var number, zeros := [g.number / 256, g.number % 256], seq(entrysize - 3 - |g.name|, _ => 0);
    assert GroupBytes(g, entrysize) == number + ((g.name + [0]) + zeros);
    HasAtByte(bytes, o, GroupBytes(g, entrysize), 0);
    HasAtByte(bytes, o, GroupBytes(g, entrysize), 1);
    HasAtSplit(bytes, o, number, (g.name + [0]) + zeros);
    HasAtSplit(bytes, o + 2, g.name + [0], zeros);
    NameEnds(bytes, o + 2, g.name);
  }

  /** The names first differ at k, and a has the smaller byte there. */
  predicate Below(a: seq<byte>, b: seq<byte>, k: nat) {
    k < |a| && k < |b| && a[..k] == b[..k] && a[k] < b[k]
  }

  lemma BelowBehind(a: seq<byte>, b: seq<byte>, k: nat)
    requires a != [] && b != [] && a[0] == b[0]
    ensures Below(a, b, k + 1) <==> Below(a[1..], b[1..], k)
  {
    if k < |a| - 1 && k < |b| - 1 {
      assert a[..k + 1] == [a[0]] + a[1..][..k] && b[..k + 1] == [b[0]] + b[1..][..k];
      assert a[1..][..k] == a[..k + 1][1..] && b[1..][..k] == b[..k + 1][1..];
    }
  }

  /** strcmp orders by the first byte that differs; what has ended comes first. */
  lemma {:induction false} CompareMeans(a: seq<byte>, b: seq<byte>)
    requires 0 !in a && 0 !in b
    ensures Compare(a, b) < 0 <==> a < b || exists k: nat :: Below(a, b, k)
  {
    if a != [] && b != [] && a[0] == b[0] {
      CompareMeans(a[1..], b[1..]);
      assert a == [a[0]] + a[1..] && b == [b[0]] + b[1..];
      assert a < b <==> a[1..] < b[1..];
      if k: nat :| Below(a[1..], b[1..], k) {
        BelowBehind(a, b, k);
        assert Below(a, b, k + 1);
      }
      if k: nat :| Below(a, b, k) {
        assert k > 0;
        BelowBehind(a, b, k - 1);
        assert Below(a[1..], b[1..], k - 1);
      }
    } else {
      assert a != [] ==> a[0] in a;
      assert b != [] ==> b[0] in b;
      assert a != [] && b != [] && a[0] < b[0] ==> Below(a, b, 0);
      forall k: nat | Below(a, b, k)
        ensures k == 0
      {
      }
    }
  }

  // ---------- The searches ----------

  /** The number of some entry with the name, found exactly if there is one. */
  method GetStringNumber(t: Table, name: seq<byte>) returns (rc: int)
    requires t.Valid() && 0 !in name
    ensures rc >= 0 <==> t.Has(name)
    ensures rc >= 0 ==> exists k :: 0 <= k < t.count && t.Name(k) == name && t.Number(k) == rc
    ensures rc < 0 ==> rc == -7
  {
    var top, bot := t.count, 0;
    while top > bot
      invariant 0 <= bot <= top <= t.count
      invariant forall k :: 0 <= k < t.count && t.Name(k) == name ==> bot <= k < top
    {
      var mid := (top + bot) / 2;
      var c := Compare(name, t.Name(mid));
      if c == 0 {
        CompareIsEquality(name, t.Name(mid));
        return t.Number(mid);
      }
      forall k | 0 <= k < t.count && t.Name(k) == name
        ensures if c > 0 then mid < k else k < mid
      {
        Aside(t, name, mid, k);
      }
      if c > 0 {
        bot := mid + 1;
      } else {
        top := mid;
      }
    }
    rc := PCRE_ERROR_NOSUBSTRING;
  }

  /** The whole run of entries with the name, found exactly if there is one. */
  method GetStringTableEntries(t: Table, name: seq<byte>) returns (rc: int, first: nat, last: nat)
    requires t.Valid() && 0 !in name
    ensures rc > 0 <==> t.Has(name)
    ensures rc > 0 ==> rc == t.entrysize && t.IsRun(name, first, last)
    ensures rc <= 0 ==> rc == -7
  {
    first, last := 0, 0;
    var top, bot := t.count, 0;
    while top > bot
      invariant 0 <= bot <= top <= t.count
      invariant forall k :: 0 <= k < t.count && t.Name(k) == name ==> bot <= k < top
    {
      var mid := (top + bot) / 2;
      var c := Compare(name, t.Name(mid));
      if c == 0 {
        CompareIsEquality(name, t.Name(mid));
        first, last := Widen(t, name, mid);
        return t.entrysize, first, last;
      }
      forall k | 0 <= k < t.count && t.Name(k) == name
        ensures if c > 0 then mid < k else k < mid
      {
        Aside(t, name, mid, k);
      }
      if c > 0 {
        bot := mid + 1;
      } else {
        top := mid;
      }
    }
    rc := PCRE_ERROR_NOSUBSTRING;
  }

  /** From one entry with the name to all of them. */
  method Widen(t: Table, name: seq<byte>, mid: nat) returns (first: nat, last: nat)
    requires t.Valid() && 0 !in name && mid < t.count && t.Name(mid) == name
    ensures t.IsRun(name, first, last)
  {
    first, last := mid, mid;
    while first > 0
      invariant first <= mid && t.Name(first) == name
    {
      CompareIsEquality(name, t.Name(first - 1));
      if Compare(name, t.Name(first - 1)) != 0 {
        break;
      }
      first := first - 1;
    }
    while last < t.count - 1
      invariant mid <= last < t.count && t.Name(last) == name
    {
      CompareIsEquality(name, t.Name(last + 1));
      if Compare(name, t.Name(last + 1)) != 0 {
        break;
      }
      last := last + 1;
    }
    forall k | 0 <= k < t.count
      ensures t.Name(k) == name <==> first <= k <= last
    {
      if k < first {
        Between(t, name, k, first - 1, first);
      } else if k <= last {
        Between(t, name, first, k, last);
      } else {
        Between(t, name, last, last + 1, k);
      }
    }
  }

  // ---------- The first group that is set ----------

  /** Entry k is for a group that matched. */
  predicate IsSet(t: Table, ovector: seq<int>, k: nat) {
    t.Number(k) * 2 < |ovector| && ovector[t.Number(k) * 2] >= 0
  }

  /**
   The number of the first entry of the run whose group is set. If none is, it is what two bytes behind the run say:
   the number of the next entry, or, behind the last entry, the start of the code.
   */
  method GetFirstSet(t: Table, name: seq<byte>, dupnames: bool, ovector: seq<int>) returns (rc: int)
    requires t.Valid() && 0 !in name
    requires forall k :: 0 <= k < t.count && t.Name(k) == name ==> t.Number(k) * 2 < |ovector|
    ensures rc >= 0 <==> t.Has(name)
    ensures rc < 0 ==> rc == -7
    ensures !dupnames && rc >= 0 ==> exists k :: 0 <= k < t.count && t.Name(k) == name && t.Number(k) == rc
    ensures dupnames ==> forall first: nat, last: nat :: t.IsRun(name, first, last) ==>
              rc == t.Number(FirstSet(t, ovector, first, last))
  {
    if !dupnames {
      rc := GetStringNumber(t, name);
      return;
    }
    var entrysize, first, last := GetStringTableEntries(t, name);
    if entrysize <= 0 {
      RunsHave(t, name);
      return entrysize;
    }
    ghost var firstSet := FirstSet(t, ovector, first, last);
    var entry := first;
    while entry <= last
      invariant first <= entry <= last + 1
      invariant FirstSet(t, ovector, entry, last) == firstSet
    {
      var n := t.Number(entry);
      if ovector[n * 2] >= 0 {
        RunIsOne(t, name, first, last);
        return n;
      }
      entry := entry + 1;
    }
    RunIsOne(t, name, first, last);
    rc := t.Number(entry);
  }

  lemma RunsHave(t: Table, name: seq<byte>)
    ensures (exists first: nat, last: nat :: t.IsRun(name, first, last)) ==> t.Has(name)
  {
    forall first: nat, last: nat | t.IsRun(name, first, last)
      ensures t.Has(name)
    {
      assert t.Name(first) == name;
    }
  }

  lemma RunIsOne(t: Table, name: seq<byte>, first: nat, last: nat)
    requires t.IsRun(name, first, last)
    ensures forall f: nat, l: nat :: t.IsRun(name, f, l) ==> f == first && l == last
  {
    forall f: nat, l: nat | t.IsRun(name, f, l)
      ensures f == first && l == last
    {
      assert t.Name(f) == name && t.Name(l) == name && t.Name(first) == name && t.Name(last) == name;
    }
  }

  /** The first entry from `entry` to `last` whose group is set, or the place after them. */
  function FirstSet(t: Table, ovector: seq<int>, entry: nat, last: nat): (r: nat)
    requires entry <= last + 1
    ensures entry <= r <= last + 1
    ensures r <= last ==> IsSet(t, ovector, r)
    ensures forall k :: entry <= k < r ==> !IsSet(t, ovector, k)
    decreases last + 1 - entry
  {
    if entry > last || IsSet(t, ovector, entry) then entry else FirstSet(t, ovector, entry + 1, last)
  }

  /** The first entry of a run with a start offset that is not negative is the one that is set, if there is any. */
  lemma {:induction false} FirstSetMeans(t: Table, ovector: seq<int>, first: nat, last: nat, k: nat)
    requires first <= k <= last && forall j :: first <= j <= last ==> 2 * t.Number(j) < |ovector|
    requires ovector[2 * t.Number(k)] >= 0 && forall j :: first <= j < k ==> ovector[2 * t.Number(j)] < 0
    ensures FirstSet(t, ovector, first, last) == k
    decreases k - first
  {
    if first < k {
      FirstSetMeans(t, ovector, first + 1, last, k);
    }
  }

  /** What the description of `get_first_set` promises: if no group of the run is set, the number of its last entry. */
  function Promised(t: Table, ovector: seq<int>, first: nat, last: nat): nat
    requires first <= last
  {
    var k := FirstSet(t, ovector, first, last);
    t.Number(if k <= last then k else last)
  }

  /**
   The promise is kept exactly if some group of the run is set, where another entry follows the run and has not the same
   number as the last one of the run.
   */
  lemma PromiseIsKept(t: Table, name: seq<byte>, ovector: seq<int>, first: nat, last: nat)
    requires t.IsRun(name, first, last) && last + 1 < t.count && t.Number(last + 1) != t.Number(last)
    ensures t.Number(FirstSet(t, ovector, first, last)) == Promised(t, ovector, first, last) <==>
            exists k :: first <= k <= last && IsSet(t, ovector, k)
  {
    var k := FirstSet(t, ovector, first, last);
    if k <= last {
      assert IsSet(t, ovector, k);
    }
  }

  /** Behind a run that ends the table it is the code of the pattern that is read. */
  lemma PromiseAtTheEnd(t: Table, name: seq<byte>, ovector: seq<int>, first: nat, last: nat)
    requires t.IsRun(name, first, last) && last + 1 == t.count
    ensures t.Number(FirstSet(t, ovector, first, last)) == Promised(t, ovector, first, last) <==>
            || (exists k :: first <= k <= last && IsSet(t, ovector, k))
            || Get(t.bytes, t.entrysize * t.count) == t.Number(last)
  {
    var k := FirstSet(t, ovector, first, last);
    if k <= last {
      assert IsSet(t, ovector, k);
    }
  }

  /** A table of one name, "a", for groups 1 and 2, before code that starts 131, 0. */
  const TWICE := Table([0, 1, 97, 0, 0, 2, 97, 0, 131, 0], 4, 2)

  lemma TwiceIs()
    ensures TWICE.Name(0) == [97] && TWICE.Name(1) == [97]
    ensures TWICE.Number(0) == 1 && TWICE.Number(1) == 2 && TWICE.Number(2) == 33536
  {
    var t := TWICE.bytes;
    assert CString(t, 3) == [] && CString(t, 7) == [];
    assert CString(t, 2) == [97] && CString(t, 6) == [97];
  }

  lemma TwiceIsValid()
    ensures TWICE.Valid() && TWICE.IsRun([97], 0, 1)
  {
    hide CString, Compare;
    TwiceIs();
    CompareIsEquality([97], [97]);
    assert TWICE.InOrder(0);
  }

  /** With neither group set, the number that is given back is 33536. */
  lemma NoneSetExample()
    ensures var ovector := [0, 1, -1, -1, -1, -1];
            && TWICE.Valid() && TWICE.IsRun([97], 0, 1)
            && TWICE.Number(FirstSet(TWICE, ovector, 0, 1)) == 33536 && TWICE.Number(1) == 2
  {
    hide CString, Compare, Get;
    TwiceIs();
    TwiceIsValid();
    var ovector := [0, 1, -1, -1, -1, -1];
    assert !IsSet(TWICE, ovector, 0) && !IsSet(TWICE, ovector, 1);
  }
}
