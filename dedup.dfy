/**
 * Dedup: `deduplicate` (main.go:427-437), the primitive every transform
 * ends with. It walks the runes of its input, remembers the runes seen so
 * far in a map, and appends a rune only the first time it is seen.
 */
module Dedup {
  import opened Runes

  /**
   * The first occurrence of each rune of `s`, in input order. Defined on the
   * prefix, as the loop of `deduplicate` sees it: the last rune is kept
   * exactly when it did not occur before.
   */
  function Deduplicated(s: seq<char>): seq<char>
  {
    if |s| == 0 then []
    else
      var init, c := s[..|s| - 1], s[|s| - 1];
      if c in init then Deduplicated(init) else Deduplicated(init) + [c]
  }

  /** `deduplicate`: the loop over the runes with the `runes` seen-map. */
  method Deduplicate(s: seq<char>) returns (deduplicated: seq<char>)
    ensures deduplicated == Deduplicated(s)
  {
    deduplicated := [];
    var runes: map<char, bool> := map[];
    var i := 0;
    while i < |s|
      invariant 0 <= i <= |s|
      invariant deduplicated == Deduplicated(s[..i])
      invariant forall c :: c in runes <==> c in s[..i]
    {
      var r := s[i];
      assert s[..i + 1][..i] == s[..i];
      if r !in runes {
        runes := runes[r := true];
        deduplicated := deduplicated + [r];
      }
      i := i + 1;
    }
    assert s[..i] == s;
  }

  /**
   * What `deduplicate` promises: the result has the same runes as the input,
   * none of them twice, in the order of their first occurrence in the input.
   */
  lemma {:induction false} DeduplicatedSpec(s: seq<char>)
    ensures Elems(Deduplicated(s)) == Elems(s)
    ensures NoDup(Deduplicated(s))
    ensures InFirstOccurrenceOrder(Deduplicated(s), s)
  {
    if |s| > 0 {
      var n := |s| - 1;
      var init, c := s[..n], s[n];
      var r := Deduplicated(init);
      DeduplicatedSpec(init);
      assert s == init + [c];
      ElemsAppend(init, [c]);
      ElemsAppend(r, [c]);
      forall x | x in init
        ensures x in s && FirstIndex(s, x) == FirstIndex(init, x)
      {
        FirstIndexAppend(init, [c], x);
      }
      if c !in init {
        FirstIndexUnique(s, c, n);
        assert c !in Elems(r);
      }
    }
  }

  /**
   * The three properties of DeduplicatedSpec determine the result: any rune
   * list with the runes of `s`, in first-occurrence order, is the
   * deduplication of `s`.
   */
  lemma DeduplicatedUnique(s: seq<char>, r: seq<char>)
    requires Elems(r) == Elems(s)
    requires InFirstOccurrenceOrder(r, s)
    ensures r == Deduplicated(s)
  {
    var d := Deduplicated(s);
    DeduplicatedSpec(s);
    var before := (x: char, y: char) => x in s && y in s && FirstIndex(s, x) < FirstIndex(s, y);
    assert Chain(r, before);
    assert Chain(d, before);
    ChainUnique(r, d, before);
  }

  /** A repeat-free string comes back unchanged. */
  lemma DeduplicatedNoDup(s: seq<char>)
    requires NoDup(s)
    ensures Deduplicated(s) == s
  {
    forall i, j | 0 <= i < j < |s|
      ensures FirstIndex(s, s[i]) < FirstIndex(s, s[j])
    {
      FirstIndexUnique(s, s[i], i);
      FirstIndexUnique(s, s[j], j);
    }
    DeduplicatedUnique(s, s);
  }

  /** Deduplicating twice is deduplicating once. */
  lemma DeduplicatedIdempotent(s: seq<char>)
    ensures Deduplicated(Deduplicated(s)) == Deduplicated(s)
  {
    DeduplicatedSpec(s);
    DeduplicatedNoDup(Deduplicated(s));
  }

  /** Deduplicating a longer string extends the deduplication of its prefix. */
  lemma {:induction false} DeduplicatedPrefix(s: seq<char>, t: seq<char>)
    ensures Deduplicated(s) <= Deduplicated(s + t)
    decreases |t|
  {
    if |t| == 0 {
      assert s + t == s;
    } else {
      var n := |t| - 1;
      assert (s + t)[..|s + t| - 1] == s + t[..n];
      DeduplicatedPrefix(s, t[..n]);
    }
  }

  /** One more rune: kept exactly when it is new. */
  lemma DeduplicatedSnoc(s: seq<char>, c: char)
    ensures Deduplicated(s + [c]) == if c in s then Deduplicated(s) else Deduplicated(s) + [c]
  {
    assert (s + [c])[..|s|] == s;
  }

  /** Example from main_test.go: later copies of a rune are dropped. */
  lemma DeduplicatedApple()
    ensures Deduplicated("apple") == "aple"
  {
    FirstIndexUnique("apple", 'a', 0);
    FirstIndexUnique("apple", 'p', 1);
    FirstIndexUnique("apple", 'l', 3);
    FirstIndexUnique("apple", 'e', 4);
    assert Elems("aple") == Elems("apple");
    DeduplicatedUnique("apple", "aple");
  }

  /** Example from main_test.go: a run of one rune collapses to one copy. */
  lemma DeduplicatedRepeated()
    ensures Deduplicated("eeeeeee") == "e"
  {
    assert Elems("e") == Elems("eeeeeee");
    DeduplicatedUnique("eeeeeee", "e");
  }

  /** Example from main_test.go: a string of distinct runes, multi-byte ones included, is kept. */
  lemma DeduplicatedRepeatFree()
    ensures Deduplicated("NKíjé") == "NKíjé"
  {
    var s := "NKíjé";
    assert s[0] == 'N' && s[1] == 'K' && s[2] == 'í' && s[3] == 'j' && s[4] == 'é';
    DeduplicatedNoDup(s);
  }

  /** Example from main_test.go: a single rune is kept. */
  lemma DeduplicatedSingle()
    ensures Deduplicated("a") == "a"
  {
    DeduplicatedNoDup("a");
  }
}
