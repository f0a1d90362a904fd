/** Bytes, and texts as sequences of bytes. */
module Bytes {

  type byte = b: int | 0 <= b < 256

  /** The byte at i; past either end, the zero that ends a C string. */
  function At(text: seq<byte>, i: int): byte {
    if 0 <= i < |text| then text[i] else 0
  }

  /** GET and GET2 (pcre_internal.h): two bytes as a number, the high one first. */
  function Get(code: seq<byte>, i: int): nat {
    256 * At(code, i) + At(code, i + 1)
  }

  /** f stands in the text at o. */
  predicate HasAt(text: seq<byte>, o: nat, f: seq<byte>) {
    o + |f| <= |text| && text[o..o + |f|] == f
  }

  lemma HasAtSplit(text: seq<byte>, o: nat, f: seq<byte>, g: seq<byte>)
    requires HasAt(text, o, f + g)
    ensures HasAt(text, o, f) && HasAt(text, o + |f|, g)
  {
    var all := text[o..o + |f + g|];
    assert text[o..o + |f|] == all[..|f|] == f;
    assert text[o + |f|..o + |f| + |g|] == all[|f|..] == g;
  }

  lemma HasAtByte(text: seq<byte>, o: nat, f: seq<byte>, k: nat)
    requires HasAt(text, o, f) && k < |f|
    ensures At(text, o + k) == f[k]
  {
    assert text[o..o + |f|][k] == text[o + k];
  }
}
