/**
 Translating between traditional and simplified characters.  Replacing characters does not change where
 the characters of a text begin and end, stray and cut-off bytes included; so translating there and
 back restores the text exactly if every character comes back.
 */
module TsTranslate {
  import opened Bytes
  import opened TsSegments
  import opened TsTable

  /** What becomes of one character. */
  function Word(log: seq<Entry>, x: seq<byte>): seq<byte> {
    if IsCharacter(x) then Lookup(log, x) else x
  }

  function Words(log: seq<Entry>, xs: seq<seq<byte>>): (r: seq<seq<byte>>)
    ensures |r| == |xs|
    ensures forall k :: 0 <= k < |xs| ==> r[k] == Word(log, xs[k])
  {
    if xs == [] then [] else [Word(log, xs[0])] + Words(log, xs[1..])
  }

  /** The translated text. */
  function Translated(log: seq<Entry>, s: seq<byte>): seq<byte> {
    Flat(Words(log, Segments(s)))
  }

  // ---------- translate ----------

  lemma KindIsCharacter(s: seq<byte>)
    requires s != []
    ensures First(s).kind == CHAR_TYPE_CNC <==> IsCharacter(s[..First(s).len])
  {
    hide First;
    var n := First(s).len;
    assert s == s[..n] + s[n..];
    if First(s).kind == CHAR_TYPE_CNC {
      FirstAlone(s);
    }
    if IsCharacter(s[..n]) {
      CharacterAlone(s[..n], s[n..]);
    }
  }

  lemma WordsStep(log: seq<Entry>, s: seq<byte>)
    requires s != []
    ensures var n := First(s).len;
            Words(log, Segments(s)) == [Word(log, s[..n])] + Words(log, Segments(s[n..]))
  {
    hide First;
    assert Segments(s)[1..] == Segments(s[First(s).len..]);
  }

  /** Copies `length` bytes from pos on into a new buffer of zeros with room for three more (ts_chinese_translate.c:217-229). */
  method Substring(ch: seq<byte>, pos: nat, length: nat) returns (subch: array<byte>)
    requires pos + length <= |ch|
    ensures fresh(subch) && subch.Length == length + 3
    ensures forall k :: 0 <= k < length ==> subch[k] == ch[pos + k]
    ensures forall k :: length <= k < length + 3 ==> subch[k] == 0
  {
    subch := new byte[length + 3](_ => 0);
    var pch, i: nat := pos, 0;
    while i < length
      invariant i <= length && pch == pos + i
      invariant forall k :: 0 <= k < i ==> subch[k] == ch[pos + k]
      invariant forall k :: i <= k < length + 3 ==> subch[k] == 0
    {
      subch[i] := ch[pch];
      pch := pch + 1;
      i := i + 1;
    }
    subch[length] := 0;
  }

  /** One turn of the loop: the character at n, translated if it is Chinese. */
  method TranslateOne(minWs: seq<byte>, n: nat, tsFlag: int, ts: Table, st: Table) returns (word: seq<byte>, charLen: nat)
    requires ts.Valid() && st.Valid() && n < |minWs|
    ensures charLen == First(minWs[n..]).len
    ensures word == Word(if tsFlag == 0 then ts.log else st.log, minWs[n..n + charLen])
  {
    hide First, Table.Valid;
    var kind;
    charLen, kind := CharType(minWs[n..]);
    KindIsCharacter(minWs[n..]);
    assert minWs[n..][..charLen] == minWs[n..n + charLen];
    var empt := Substring(minWs, n, charLen);
    word := empt[..charLen];
    assert word == minWs[n..n + charLen];
    if kind == CHAR_TYPE_CNC {
      if tsFlag == 0 {
        word := ts.Check(word);
      } else {
        word := st.Check(word);
      }
    }
  }

  /** translate (ts_chinese_translate.c:231-256): flag 0 looks words up in ts, any other in st. */
  method Translate(wordLIST: array<seq<byte>>, minWs: seq<byte>, tsFlag: int, ts: Table, st: Table) returns (len: nat)
    requires ts.Valid() && st.Valid() && |Segments(minWs)| <= wordLIST.Length
    modifies wordLIST
    ensures len == |Segments(minWs)|
    ensures wordLIST[..len] == Words(if tsFlag == 0 then ts.log else st.log, Segments(minWs))
    ensures forall k :: len <= k < wordLIST.Length ==> wordLIST[k] == old(wordLIST[k])
  {
    hide First, Table.Valid, Segments, Words, Word;
    ghost var log := if tsFlag == 0 then ts.log else st.log;
    ghost var all := Words(log, Segments(minWs));
    ghost var done: seq<seq<byte>> := [];
    var n: nat := 0;
    len := 0;
    assert minWs[0..] == minWs;
    while n < |minWs|
      invariant n <= |minWs| && ts.Valid() && st.Valid() && log == if tsFlag == 0 then ts.log else st.log
      invariant len == |done| <= wordLIST.Length && wordLIST[..len] == done
      invariant all == done + Words(log, Segments(minWs[n..]))
      invariant forall k :: len <= k < wordLIST.Length ==> wordLIST[k] == old(wordLIST[k])
      decreases |minWs| - n
    {
      var word, charLen := TranslateOne(minWs, n, tsFlag, ts, st);
      WordsFrom(log, minWs, n);
      wordLIST[len] := word;
      done := done + [word];
      len := len + 1;
      n := n + charLen;
    }
    NoWords(log);
    assert minWs[n..] == [] && all == done;
  }

  lemma WordsFrom(log: seq<Entry>, s: seq<byte>, n: nat)
    requires n < |s|
    ensures var m := n + First(s[n..]).len;
            && m <= |s|
            && Words(log, Segments(s[n..])) == [Word(log, s[n..m])] + Words(log, Segments(s[m..]))
  {
    hide First;
    WordsStep(log, s[n..]);
    var k := First(s[n..]).len;
    assert s[n..][..k] == s[n..n + k] && s[n..][k..] == s[n + k..];
  }

  lemma NoWords(log: seq<Entry>)
    ensures Words(log, Segments([])) == []
  {
  }

  // ---------- Segmentation is stable ----------

  /** Every entry replaces one character by one character. */
  predicate WellFormed(log: seq<Entry>) {
    forall k :: 0 <= k < |log| ==> IsCharacter(log[k].key) && IsCharacter(log[k].value)
  }

  lemma {:induction false} LookupIsCharacter(log: seq<Entry>, x: seq<byte>)
    requires WellFormed(log) && IsCharacter(x)
    ensures IsCharacter(Lookup(log, x))
    decreases |log|
  {
    hide IsCharacter;
    if log != [] && log[0].key != x {
      assert forall k :: 0 <= k < |log[1..]| ==> log[1..][k] == log[k + 1];
      LookupIsCharacter(log[1..], x);
    }
  }

  /** A translated text, character by character. */
  lemma TranslatedStep(log: seq<Entry>, s: seq<byte>)
    requires s != []
    ensures var n := First(s).len;
            Translated(log, s) == Word(log, s[..n]) + Translated(log, s[n..])
  {
    hide First;
    WordsStep(log, s);
    var ws := Words(log, Segments(s));
    assert ws[1..] == Words(log, Segments(s[First(s).len..]));
  }

  /** A character that is no continuation byte ends the run before it. */
  lemma NoRun(s: seq<byte>)
    requires s != [] && !IsContinuation(s[0])
    ensures Run(s) == []
  {
  }

  /** Translating does not change the continuation bytes at the start of a text. */
  lemma {:induction false} TranslatedRun(log: seq<Entry>, s: seq<byte>)
    requires WellFormed(log)
    ensures Run(Translated(log, s)) == Run(s)
    decreases |s|
  {
    hide First, IsCharacter, Run, Translated;
    if s == [] {
      NothingTranslated(log);
    } else {
      var n := First(s).len;
      var x, rest := s[..n], s[n..];
      TranslatedStep(log, s);
      KindIsCharacter(s);
      TranslatedRun(log, rest);
      if IsContinuation(s[0]) {
        StrayByte(s);
        assert s == [s[0]] + rest && x == [s[0]];
        RunPlus([s[0]], rest);
        RunPlus([s[0]], Translated(log, rest));
      } else {
        if IsCharacter(x) {
          LookupIsCharacter(log, x);
          CharacterAlone(Lookup(log, x), Translated(log, rest));
          NotEmpty(Lookup(log, x));
        }
        NoRun(s);
        NoRun(Translated(log, s));
      }
    }
  }

  lemma NotEmpty(w: seq<byte>)
    requires IsCharacter(w)
    ensures w != []
  {
  }

  lemma NothingTranslated(log: seq<Entry>)
    ensures Translated(log, []) == []
  {
  }

  /** The first character of a text is followed by other bytes than its own continuation bytes. */
  lemma FirstRun(s: seq<byte>)
    requires s != []
    ensures var n := First(s).len;
            Run(s[1..]) == s[1..n] + Run(s[n..])
  {
    hide First;
    var n := First(s).len;
    CharacterTail(s);
    var tail := s[1..n];
    assert forall k :: 0 <= k < |tail| ==> tail[k] == s[k + 1];
    assert s[1..] == tail + s[n..];
    RunPlus(tail, s[n..]);
  }

  /** The first character of the translated text is the translated first character. */
  lemma FirstTranslated(log: seq<Entry>, s: seq<byte>)
    requires s != [] && WellFormed(log)
    ensures var n, v := First(s).len, Translated(log, s);
            && v != [] && First(v).len == |Word(log, s[..n])|
            && v[..First(v).len] == Word(log, s[..n]) && v[First(v).len..] == Translated(log, s[n..])
  {
    hide First, IsCharacter, Translated, Run;
    var n := First(s).len;
    var x, rest, v := s[..n], s[n..], Translated(log, s);
    TranslatedStep(log, s);
    KindIsCharacter(s);
    if IsCharacter(x) {
      LookupIsCharacter(log, x);
      NotEmpty(Lookup(log, x));
      CharacterAlone(Lookup(log, x), Translated(log, rest));
      CharacterLength(Lookup(log, x));
    } else {
      assert v == x + Translated(log, rest);
      FirstRun(s);
      TranslatedRun(log, rest);
      var tail := s[1..n];
      assert v[1..] == tail + Translated(log, rest);
      CharacterTail(s);
      assert forall k :: 0 <= k < |tail| ==> tail[k] == s[k + 1];
      RunPlus(tail, Translated(log, rest));
      FirstDepends(s, v);
    }
  }

  lemma CharacterLength(w: seq<byte>)
    requires IsCharacter(w)
    ensures First(w).len == |w|
  {
  }

  /** The characters of the translated text are the translated characters. */
  lemma {:induction false} SegmentsStable(log: seq<Entry>, s: seq<byte>)
    requires WellFormed(log)
    ensures Segments(Translated(log, s)) == Words(log, Segments(s))
    decreases |s|
  {
    hide First, IsCharacter, Translated, Run;
    if s == [] {
      NothingTranslated(log);
    } else {
      FirstTranslated(log, s);
      WordsStep(log, s);
      SegmentsStable(log, s[First(s).len..]);
    }
  }

  // ---------- There and back ----------

  /** Translating twice translates each character twice. */
  lemma TranslatedTwice(log: seq<Entry>, back: seq<Entry>, s: seq<byte>)
    requires WellFormed(log) && WellFormed(back)
    ensures Segments(Translated(back, Translated(log, s))) == Words(back, Words(log, Segments(s)))
  {
    hide First, IsCharacter, Segments, Words;
    SegmentsStable(log, s);
    SegmentsStable(back, Translated(log, s));
  }

  /** The text comes back exactly if each of its characters does. */
  lemma ThereAndBack(log: seq<Entry>, back: seq<Entry>, s: seq<byte>)
    requires WellFormed(log) && WellFormed(back)
    ensures Translated(back, Translated(log, s)) == s <==>
            forall x <- Segments(s) :: IsCharacter(x) ==> Lookup(back, Lookup(log, x)) == x
  {
    hide First, IsCharacter, Segments, Flat, Translated, Lookup;
    var t := Translated(back, Translated(log, s));
    var xs, ys := Segments(s), Words(back, Words(log, Segments(s)));
    TranslatedTwice(log, back, s);
    SegmentsJoin(s);
    SegmentsJoin(t);
    assert t == s <==> xs == ys;
    forall k | 0 <= k < |xs|
      ensures ys[k] == xs[k] <==> (IsCharacter(xs[k]) ==> Lookup(back, Lookup(log, xs[k])) == xs[k])
    {
      if IsCharacter(xs[k]) {
        LookupIsCharacter(log, xs[k]);
      }
    }
    if xs == ys {
      forall x | x in xs && IsCharacter(x)
        ensures Lookup(back, Lookup(log, x)) == x
      {
        var k :| 0 <= k < |xs| && xs[k] == x;
        assert ys[k] == xs[k];
      }
    }
  }

  /** The dictionary the other way round. */
  function Swapped(log: seq<Entry>): (r: seq<Entry>)
    ensures |r| == |log| && forall k :: 0 <= k < |log| ==> r[k] == Entry(log[k].value, log[k].key)
  {
    if log == [] then [] else [Entry(log[0].value, log[0].key)] + Swapped(log[1..])
  }

  predicate DistinctValues(log: seq<Entry>) {
    forall i, j :: 0 <= i < j < |log| ==> log[i].value != log[j].value
  }

  predicate IsValue(log: seq<Entry>, x: seq<byte>) {
    exists k :: 0 <= k < |log| && log[k].value == x
  }

  /** If a key is in the log, the value found is that of an entry with the key. */
  lemma {:induction false} LookupFinds(log: seq<Entry>, x: seq<byte>) returns (k: nat)
    ensures k <= |log|
    ensures k < |log| ==> log[k].key == x && Lookup(log, x) == log[k].value
    ensures k == |log| ==> Lookup(log, x) == x
    ensures forall j :: 0 <= j < k ==> log[j].key != x
    decreases |log|
  {
    if log == [] || log[0].key == x {
      k := 0;
    } else {
      k := LookupFinds(log[1..], x);
      k := k + 1;
      assert forall j :: 1 <= j < |log| ==> log[j] == log[1..][j - 1];
    }
  }

  predicate IsKey(log: seq<Entry>, x: seq<byte>) {
    exists k :: 0 <= k < |log| && log[k].key == x
  }

  /** A character comes back exactly if it is a key or no value. */
  lemma CharacterComesBack(log: seq<Entry>, x: seq<byte>)
    requires DistinctValues(log)
    ensures Lookup(Swapped(log), Lookup(log, x)) == x <==> IsKey(log, x) || !IsValue(log, x)
  {
    hide Lookup;
    var k := LookupFinds(log, x);
    var y := Lookup(log, x);
    var j := LookupFinds(Swapped(log), y);
    if k < |log| {
      assert log[k].key == x && Swapped(log)[k].key == y;
      assert j == k;
    }
  }

  lemma SwappedWellFormed(log: seq<Entry>)
    requires WellFormed(log)
    ensures WellFormed(Swapped(log))
  {
    hide IsCharacter;
  }

  /**
   Traditional to simplified and back restores a text, whatever stray or cut-off bytes are in it, exactly
   if every character in it that is a value of the dictionary is a key as well.
   */
  lemma TraditionalAndBack(log: seq<Entry>, s: seq<byte>)
    requires WellFormed(log) && DistinctValues(log)
    ensures Translated(Swapped(log), Translated(log, s)) == s <==>
            forall x <- Segments(s) :: IsCharacter(x) && IsValue(log, x) ==> IsKey(log, x)
  {
    hide First, IsCharacter, Segments, Translated, Lookup, IsValue, IsKey;
    SwappedWellFormed(log);
    forall x
      ensures Lookup(Swapped(log), Lookup(log, x)) == x <==> IsKey(log, x) || !IsValue(log, x)
    {
      CharacterComesBack(log, x);
    }
    ThereAndBack(log, Swapped(log), s);
  }

  /** One line of the dictionary goes into both tables (ts_chinese_translate.c:170-171). */
  method AddLine(ts: Table, st: Table, a: seq<byte>, b: seq<byte>)
    requires ts.Valid() && st.Valid() && ts != st && ts.Repr !! st.Repr && st.log == Swapped(ts.log)
    modifies ts`chains, ts`log, ts`Repr, ts.Repr, st`chains, st`log, st`Repr, st.Repr
    ensures ts.Valid() && st.Valid() && ts.Repr !! st.Repr
    ensures ts.log == old(ts.log) + [Entry(a, b)] && st.log == Swapped(ts.log)
  {
    hide Table.ChainOk;
    ts.Create(a, b);
    st.Create(b, a);
    assert st.log == Swapped(ts.log);
  }
}
