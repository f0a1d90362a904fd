/**
 The dictionary in one direction: an array of chains of entries, each ended by an entry whose tag is
 zero.  A new entry overwrites the end of its chain and gets a new end behind it, so of several
 entries with one key the first is found.
 */
module TsTable {
  import opened Bytes

  const TSLEN := 10000

  /** A char is signed. */
  function Signed(c: byte): int {
    if c < 128 then c else c - 256
  }

  /** One round of SDBMHash, in 32 bits. */
  function HashStep(hash: nat, c: byte): (r: nat)
    ensures r < 0x1_0000_0000
  {
    (Signed(c) + hash * 64 + hash * 65536 - hash) % 0x1_0000_0000
  }

  /** The hash of all characters, without the last mask. */
  function HashOf(s: seq<byte>): (r: nat)
    ensures r < 0x1_0000_0000
  {
    if s == [] then 0 else HashStep(HashOf(s[..|s| - 1]), s[|s| - 1])
  }

  /** The chain of a word: the low 31 bits of its hash, modulo the size of the table. */
  function Tag(s: seq<byte>): (r: nat)
    ensures r < TSLEN
  {
    HashOf(s) % 0x8000_0000 % TSLEN
  }

  /** SDBMHash (ts_chinese_translate.c:7-13) */
  method SDBMHash(str: seq<byte>) returns (hash: nat)
    ensures hash % TSLEN == Tag(str)
  {
    hash := 0;
    for k := 0 to |str|
      invariant hash == HashOf(str[..k])
    {
      assert str[..k + 1][..k] == str[..k];
      hash := HashStep(hash, str[k]);
    }
    assert str[..|str|] == str;
    hash := hash % 0x8000_0000;
  }

  /** What one line of the dictionary says. */
  datatype Entry = Entry(key: seq<byte>, value: seq<byte>)

  // ---------- First insertion wins ----------

  /** The value of the first entry with the key, or the key itself. */
  function Lookup(log: seq<Entry>, key: seq<byte>): seq<byte> {
    if log == [] then key else if log[0].key == key then log[0].value else Lookup(log[1..], key)
  }

  /** The entries whose keys have the tag. */
  function WithTag(log: seq<Entry>, tag: nat): seq<Entry> {
    if log == [] then [] else
    var last := log[|log| - 1];
    WithTag(log[..|log| - 1], tag) + if Tag(last.key) == tag then [last] else []
  }

  lemma {:induction false} LookupAppend(log: seq<Entry>, e: Entry, key: seq<byte>)
    ensures Lookup(log + [e], key) ==
            if exists k :: 0 <= k < |log| && log[k].key == key then Lookup(log, key)
            else if e.key == key then e.value else key
    decreases |log|
  {
    if log == [] {
      assert log + [e] == [e] && [e][1..] == [];
    } else {
      assert (log + [e])[1..] == log[1..] + [e];
      LookupAppend(log[1..], e, key);
      if exists k :: 0 <= k < |log| && log[k].key == key {
        var k :| 0 <= k < |log| && log[k].key == key;
        assert k > 0 ==> log[1..][k - 1] == log[k];
      }
      assert forall k :: 0 <= k < |log[1..]| ==> log[1..][k] == log[k + 1];
    }
  }

  /** Looking among the entries with the key's tag is looking among all entries. */
  lemma {:induction false} LookupWithTag(log: seq<Entry>, key: seq<byte>)
    ensures Lookup(WithTag(log, Tag(key)), key) == Lookup(log, key)
    ensures (exists k :: 0 <= k < |log| && log[k].key == key) <==>
            (exists k :: 0 <= k < |WithTag(log, Tag(key))| && WithTag(log, Tag(key))[k].key == key)
    decreases |log|
  {
    hide Lookup;
    if log != [] {
      var rest, last := log[..|log| - 1], log[|log| - 1];
      assert log == rest + [last];
      LookupWithTag(rest, key);
      LookupAppend(rest, last, key);
      var some := WithTag(rest, Tag(key));
      LookupAppend(some, last, key);
      KeyAppend(rest, last, key);
      KeyAppend(some, last, key);
      if Tag(last.key) != Tag(key) {
        assert WithTag(log, Tag(key)) == some;
        if !exists k :: 0 <= k < |rest| && rest[k].key == key {
          LookupMissing(rest, key);
        }
      }
    }
  }

  lemma KeyAppend(log: seq<Entry>, e: Entry, key: seq<byte>)
    ensures (exists k :: 0 <= k < |log + [e]| && (log + [e])[k].key == key) <==>
            (e.key == key || exists k :: 0 <= k < |log| && log[k].key == key)
  {
    var all := log + [e];
    if e.key == key {
      assert all[|log|].key == key;
    }
    if exists k :: 0 <= k < |log| && log[k].key == key {
      var k :| 0 <= k < |log| && log[k].key == key;
      assert all[k].key == key;
    }
  }

  lemma {:induction false} LookupMissing(log: seq<Entry>, key: seq<byte>)
    requires !exists k :: 0 <= k < |log| && log[k].key == key
    ensures Lookup(log, key) == key
    decreases |log|
  {
    if log != [] {
      assert log[0].key != key;
      assert forall k :: 0 <= k < |log[1..]| ==> log[1..][k] == log[k + 1];
      LookupMissing(log[1..], key);
    }
  }

  // ---------- The chains ----------

  /** An entry of a chain, or with tag zero its end. */
  class TSWords {
    var Tword: seq<byte>
    var Sword: seq<byte>
    var tagNum: nat
    var next: TSWords?

    constructor ()
      ensures tagNum == 0
    {
      Tword, Sword, tagNum, next := [], [], 0, null;
    }
  }

  class Table {
    const list: array<TSWords?>
    ghost var chains: seq<seq<TSWords>>
    ghost var log: seq<Entry>
    ghost var Repr: set<TSWords>

    /** Chain i is a list of entries with a tag, in the order of their insertion, and an end without one. */
    ghost predicate ChainOk(i: nat)
      requires list.Length == TSLEN == |chains| && i < TSLEN
      reads this, list, chains[i]
    {
      Chained(list[i], chains[i], WithTag(log, i))
    }

    /** Different chains have no entries in common. */
    ghost predicate Apart()
      reads this
    {
      forall i, j :: 0 <= i < |chains| && 0 <= j < |chains| && i != j ==>
        forall w <- chains[i] :: w !in chains[j]
    }

    ghost predicate Valid()
      reads this, list, Repr
    {
      && list.Length == TSLEN == |chains| && Apart()
      && (forall i :: 0 <= i < TSLEN ==> forall w <- chains[i] :: w in Repr)
      && (forall i :: 0 <= i < TSLEN ==> ChainOk(i))
    }

    /** TSinit, for one of the two tables. */
    constructor ()
      ensures Valid() && log == [] && fresh(Repr) && fresh(list)
    {
      list := new TSWords?[TSLEN](_ => null);
      chains, log, Repr := [], [], {};
      new;
      for i := 0 to TSLEN
        modifies this`chains, this`Repr, list
        invariant |chains| == i && fresh(Repr) && log == []
        invariant forall j :: 0 <= j < i ==> |chains[j]| == 1 && list[j] == chains[j][0] && chains[j][0] in Repr
        invariant forall j :: 0 <= j < i ==> chains[j][0].tagNum == 0
        invariant forall j, k :: 0 <= j < i && 0 <= k < i && j != k ==> chains[j][0] != chains[k][0]
      {
        var w := new TSWords();
        list[i] := w;
        chains := chains + [[w]];
        Repr := Repr + {w};
      }
    }

    /** The end of the chain for a tag. */
    method FindEnd(tag: nat) returns (w: TSWords)
      requires Valid() && tag < TSLEN
      ensures chains[tag] != [] && w == chains[tag][|chains[tag]| - 1]
    {
      ghost var ws, es := chains[tag], WithTag(log, tag);
      assert ChainOk(tag);
      w := list[tag];
      ghost var k: nat := 0;
      while w.tagNum != 0
        invariant k <= |es| && w == ws[k]
        decreases |es| - k
      {
        assert Holds(ws[k], es[k], ws[k + 1]);
        w := w.next;
        k := k + 1;
      }
      EndIsLast(list[tag], ws, es, k);
    }

    /** createTSHash and createSTHash (ts_chinese_translate.c:121-153) */
    method Create(key: seq<byte>, value: seq<byte>)
      requires Valid()
      modifies this`chains, this`log, this`Repr, Repr
      ensures Valid() && log == old(log) + [Entry(key, value)] && fresh(Repr - old(Repr))
    {
      hide Chained, Holds, WithTag, Tag;
      var hash := SDBMHash(key);
      var tag := hash % TSLEN;
      var findNULL := FindEnd(tag);
      ghost var ws, es := chains[tag], WithTag(log, tag);
      ghost var e := Entry(key, value);
      assert ChainOk(tag);
      ChainParts(list[tag], ws, es);
      assert forall i :: 0 <= i < TSLEN && i != tag ==> findNULL !in chains[i];
      var end := new TSWords();
      Overwrite(findNULL, key, value, end, list[tag], ws, es);
      forall i | 0 <= i < TSLEN
        ensures Chained(list[i], if i == tag then ws + [end] else chains[i], WithTag(log + [e], i))
      {
        WithTagAppend(log, e, i);
        assert old(ChainOk(i));
      }
      chains := chains[tag := ws + [end]];
      log := log + [e];
      Repr := Repr + {end};
      assert forall i :: 0 <= i < TSLEN ==> ChainOk(i);
    }

    /** checkTS, for one of the two tables (ts_chinese_translate.c:209-213) */
    method Check(words: seq<byte>) returns (r: seq<byte>)
      requires Valid()
      ensures r == Lookup(log, words)
    {
      var hash := SDBMHash(words);
      var tag := hash % TSLEN;
      ghost var ws, es := chains[tag], WithTag(log, tag);
      LookupWithTag(log, words);
      assert ChainOk(tag);
      var findNULL := list[tag];
      ghost var k: nat := 0;
      assert es[0..] == es;
      while findNULL.tagNum != 0
        invariant k <= |es| && findNULL == ws[k] && Lookup(es[k..], words) == Lookup(es, words)
        decreases |es| - k
      {
        assert Holds(ws[k], es[k], ws[k + 1]);
        assert es[k..][0] == es[k] && es[k..][1..] == es[k + 1..];
        if findNULL.Tword == words {
          return findNULL.Sword;
        }
        findNULL := findNULL.next;
        k := k + 1;
      }
      EndIsLast(list[tag], ws, es, k);
      return words;
    }
  }

  lemma WithTagAppend(log: seq<Entry>, e: Entry, tag: nat)
    ensures WithTag(log + [e], tag) == if Tag(e.key) == tag then WithTag(log, tag) + [e] else WithTag(log, tag)
  {
    assert (log + [e])[..|log|] == log;
  }

  /** Fills the end of a chain and links a new end behind it. */
  method Overwrite(w: TSWords, key: seq<byte>, value: seq<byte>, end: TSWords, ghost head: TSWords?, ghost ws: seq<TSWords>,
                   ghost es: seq<Entry>)
    requires Chained(head, ws, es) && w == ws[|es|] && end !in ws && end.tagNum == 0
    modifies w
    ensures Chained(head, ws + [end], es + [Entry(key, value)])
  {
    w.Tword, w.Sword, w.tagNum, w.next := key, value, 1, end;
    ChainGrown(head, ws, es, Entry(key, value), end);
  }

  lemma EndIsLast(head: TSWords?, ws: seq<TSWords>, es: seq<Entry>, k: nat)
    requires Chained(head, ws, es) && k <= |es| && ws[k].tagNum == 0
    ensures k == |es|
  {
    if k < |es| {
      EntryIsTagged(ws[k], es[k], ws[k + 1]);
    }
  }

  lemma EntryIsTagged(w: TSWords, e: Entry, next: TSWords)
    ensures Holds(w, e, next) ==> w.tagNum != 0
  {
  }

  lemma ChainParts(head: TSWords?, ws: seq<TSWords>, es: seq<Entry>)
    requires Chained(head, ws, es)
    ensures |ws| == |es| + 1 && head == ws[0]
  {
  }

  /** The end of a chain has been overwritten and has got a new end behind it. */
  lemma ChainGrown(head: TSWords?, ws: seq<TSWords>, es: seq<Entry>, e: Entry, end: TSWords)
    requires |ws| == |es| + 1 && head == ws[0] && end.tagNum == 0 && end !in ws
    requires forall k :: 0 <= k < |es| ==> Holds(ws[k], es[k], ws[k + 1])
    requires Holds(ws[|es|], e, end)
    requires forall k, l :: 0 <= k < l < |ws| ==> ws[k] != ws[l]
    ensures Chained(head, ws + [end], es + [e])
  {
    hide Holds;
    var all, more := ws + [end], es + [e];
    forall k | 0 <= k < |more|
      ensures Holds(all[k], more[k], all[k + 1])
    {
      if k < |es| {
        assert all[k] == ws[k] && all[k + 1] == ws[k + 1];
      }
    }
  }

  /** The entries es in nodes ws, each leading to the next, with an end behind them. */
  ghost predicate Chained(head: TSWords?, ws: seq<TSWords>, es: seq<Entry>)
    reads ws
  {
    && |ws| == |es| + 1 && head == ws[0] && ws[|es|].tagNum == 0
    && (forall k :: 0 <= k < |es| ==> Holds(ws[k], es[k], ws[k + 1]))
    && (forall k, l :: 0 <= k < l < |ws| ==> ws[k] != ws[l])
  }

  ghost predicate Holds(w: TSWords, e: Entry, next: TSWords)
    reads w
  {
    w.tagNum != 0 && w.Tword == e.key && w.Sword == e.value && w.next == next
  }
}
