/**
 * Runes: the vocabulary shared by the string transforms of main.go.
 *
 * A Go string is modelled as the sequence of runes it decodes to (Dafny's
 * `char` is a Unicode scalar value). Where the source looks at bytes (the
 * offsets that `for i, r := range s` yields), the UTF-8 width of each rune is
 * taken from section 3 of RFC 3629.
 */
module Runes {

  /** The set of runes occurring in `s`. */
  function Elems(s: seq<char>): set<char>
  {
    set c | c in s
  }

  /** No rune occurs twice in `s`. */
  predicate NoDup(s: seq<char>)
  {
    forall i, j :: 0 <= i < j < |s| ==> s[i] != s[j]
  }

  /** The index of the first occurrence of `c` in `s`. */
  function FirstIndex(s: seq<char>, c: char): (k: nat)
    requires c in s
    ensures k < |s| && s[k] == c && c !in s[..k]
  {
    if s[0] == c then 0
    else
      var k := 1 + FirstIndex(s[1..], c);
      assert s[..k] == [s[0]] + s[1..][..k - 1];
      k
  }

  /** The only index whose rune is `c` and that has no earlier `c` is FirstIndex(s, c). */
  lemma FirstIndexUnique(s: seq<char>, c: char, k: nat)
    requires k < |s| && s[k] == c && c !in s[..k]
    ensures FirstIndex(s, c) == k
  {
  }

  /** Appending runes does not move the first occurrence of a rune already present. */
  lemma FirstIndexAppend(s: seq<char>, t: seq<char>, c: char)
    requires c in s
    ensures c in s + t && FirstIndex(s + t, c) == FirstIndex(s, c)
  {
    var k := FirstIndex(s, c);
    assert (s + t)[..k] == s[..k];
    FirstIndexUnique(s + t, c, k);
  }

  /**
   * `r` lists runes of `s` in the order of their first occurrence in `s`:
   * every rune of `r` occurs in `s`, and an earlier rune of `r` first occurs
   * earlier in `s`.
   */
  predicate InFirstOccurrenceOrder(r: seq<char>, s: seq<char>)
  {
    && (forall i :: 0 <= i < |r| ==> r[i] in s)
    && (forall i, j :: 0 <= i < j < |r| ==> r[i] in s && r[j] in s && FirstIndex(s, r[i]) < FirstIndex(s, r[j]))
  }

  /**
   * A strict chain under `lt`: every earlier rune is `lt` every later one.
   * The transforms' results are chains under "first occurs earlier" (the
   * order-preserving ones) or under the collation order (unionSort).
   */
  predicate Chain(t: seq<char>, lt: (char, char) -> bool)
  {
    forall i, j :: 0 <= i < j < |t| ==> lt(t[i], t[j])
  }

  /**
   * Two chains over the same runes under a relation that is asymmetric and
   * total on those runes are the same sequence: a repeat-free rune list is
   * determined by its rune set and its order.
   */
  lemma {:induction false} ChainUnique(t1: seq<char>, t2: seq<char>, lt: (char, char) -> bool)
    requires Chain(t1, lt) && Chain(t2, lt)
    requires Elems(t1) == Elems(t2)
    requires forall x, y :: x in t1 && y in t1 && lt(x, y) ==> !lt(y, x)
    requires forall x, y :: x in t1 && y in t1 && x != y ==> lt(x, y) || lt(y, x)
    ensures t1 == t2
  {
    if |t1| > 0 {
      assert t1[0] in Elems(t1) && |t2| > 0 && t2[0] in Elems(t2);
      assert t1[0] in t2 && t2[0] in t1;
      assert t1[0] == t2[0];
      assert forall z :: z in t2 ==> z in Elems(t1);
      ChainDropHead(t1, lt);
      ChainDropHead(t2, lt);
      ChainUnique(t1[1..], t2[1..], lt);
      assert t1 == [t1[0]] + t1[1..] && t2 == [t2[0]] + t2[1..];
    } else {
      ElemsEmpty(t1);
      ElemsEmpty(t2);
    }
  }

  lemma ElemsAppend(s: seq<char>, t: seq<char>)
    ensures Elems(s + t) == Elems(s) + Elems(t)
  {
    assert forall c :: c in s + t <==> c in s || c in t;
  }

  lemma ElemsEmpty(s: seq<char>)
    ensures Elems(s) == {} <==> s == []
  {
    if s != [] {
      assert s[0] in Elems(s);
    }
  }

  /** Removing the head of a chain removes its rune from the rune set. */
  lemma ChainDropHead(t: seq<char>, lt: (char, char) -> bool)
    requires |t| > 0 && Chain(t, lt)
    requires forall x, y :: x in t && y in t && lt(x, y) ==> !lt(y, x)
    ensures Chain(t[1..], lt)
    ensures Elems(t[1..]) == Elems(t) - {t[0]}
  {
    assert forall j :: 0 <= j < |t[1..]| ==> lt(t[0], t[1..][j]);
    assert t == [t[0]] + t[1..];
  }

  /** The number of bytes of the UTF-8 encoding of `c` (section 3 of RFC 3629). */
  function RuneLen(c: char): (n: nat)
    ensures 1 <= n <= 4
    ensures n == 1 <==> (c as int) < 0x80
  {
    if (c as int) < 0x80 then 1
    else if (c as int) < 0x800 then 2
    else if (c as int) < 0x10000 then 3
    else 4
  }

  /** The number of bytes of the UTF-8 encoding of `s`. */
  function ByteLen(s: seq<char>): (n: nat)
    ensures |s| <= n <= 4 * |s|
  {
    if |s| == 0 then 0 else ByteLen(s[..|s| - 1]) + RuneLen(s[|s| - 1])
  }

  /** The byte offset at which rune `k` of `s` starts: what `range` yields as its index. */
  function Offset(s: seq<char>, k: nat): nat
    requires k <= |s|
  {
    ByteLen(s[..k])
  }

  /** All runes are single-byte, so byte offsets and rune indices coincide. */
  predicate IsAscii(s: seq<char>)
  {
    forall i :: 0 <= i < |s| ==> (s[i] as int) < 0x80
  }

  lemma {:induction false} ByteLenAppend(s: seq<char>, t: seq<char>)
    ensures ByteLen(s + t) == ByteLen(s) + ByteLen(t)
    decreases |t|
  {
    if |t| == 0 {
      assert s + t == s;
    } else {
      var n := |t| - 1;
      assert (s + t)[..|s + t| - 1] == s + t[..n];
      ByteLenAppend(s, t[..n]);
    }
  }

  /** Rune start offsets strictly increase along the string. */
  lemma OffsetIncreasing(s: seq<char>, k: nat, m: nat)
    requires k < m <= |s|
    ensures Offset(s, k) < Offset(s, m)
  {
    assert s[..m] == s[..k] + s[k..m];
    ByteLenAppend(s[..k], s[k..m]);
  }

  /** On single-byte runes the offset of rune `k` is `k`. */
  lemma {:induction false} AsciiOffset(s: seq<char>, k: nat)
    requires IsAscii(s) && k <= |s|
    ensures Offset(s, k) == k
  {
    if k > 0 {
      AsciiOffset(s, k - 1);
      assert s[..k][..k - 1] == s[..k - 1];
    }
  }
}
