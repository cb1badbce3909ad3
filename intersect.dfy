/**
 * Intersect: `intersection` (main.go:439-449). For each rune of `a`, the
 * inner loop walks all of `b` and appends the rune of `a` once per equal
 * rune of `b`; the buffer is then deduplicated.
 */
module Intersect {
  import opened Runes
  import opened Dedup

  /** What the inner loop appends for rune `x`: one copy per occurrence of `x` in `b`. */
  function Matches(x: char, b: seq<char>): seq<char>
  {
    if |b| == 0 then []
    else Matches(x, b[..|b| - 1]) + (if b[|b| - 1] == x then [x] else [])
  }

  /** The buffer `s` built by the two loops, before deduplication. */
  function Common(a: seq<char>, b: seq<char>): seq<char>
  {
    if |a| == 0 then []
    else Common(a[..|a| - 1], b) + Matches(a[|a| - 1], b)
  }

  /** The value `intersection(a, b)` returns. */
  function Intersected(a: seq<char>, b: seq<char>): seq<char>
  {
    Deduplicated(Common(a, b))
  }

  /** `intersection`: the nested loops, then `deduplicate`. */
  method Intersection(a: seq<char>, b: seq<char>) returns (r: seq<char>)
    ensures r == Intersected(a, b)
  {
    var s: seq<char> := [];
    var i := 0;
    while i < |a|
      invariant 0 <= i <= |a|
      invariant s == Common(a[..i], b)
    {
      var runeA := a[i];
      var j := 0;
      while j < |b|
        invariant 0 <= j <= |b|
        invariant s == Common(a[..i], b) + Matches(runeA, b[..j])
      {
        assert b[..j + 1][..j] == b[..j];
        if runeA == b[j] {
          s := s + [runeA];
        }
        j := j + 1;
      }
      assert b[..j] == b;
      assert a[..i + 1][..i] == a[..i];
      i := i + 1;
    }
    assert a[..i] == a;
    r := Deduplicate(s);
  }

  /** The inner loop appends only copies of `x`, and at least one exactly when `x` occurs in `b`. */
  lemma {:induction false} MatchesSpec(x: char, b: seq<char>)
    ensures forall i :: 0 <= i < |Matches(x, b)| ==> Matches(x, b)[i] == x
    ensures |Matches(x, b)| > 0 <==> x in b
  {
    if |b| > 0 {
      var init := b[..|b| - 1];
      MatchesSpec(x, init);
      assert b == init + [b[|b| - 1]];
    }
  }

  /** The runes of `s` that occur in `b`, in the order of `s`. */
  function KeepIn(s: seq<char>, b: seq<char>): seq<char>
  {
    if |s| == 0 then []
    else KeepIn(s[..|s| - 1], b) + (if s[|s| - 1] in b then [s[|s| - 1]] else [])
  }

  /** Appending copies of a rune to a buffer adds it to the deduplication once, if it is new. */
  lemma {:induction false} DeduplicatedAppendCopies(c: seq<char>, m: seq<char>, x: char)
    requires |m| > 0
    requires forall i :: 0 <= i < |m| ==> m[i] == x
    ensures Deduplicated(c + m) == Deduplicated(c) + (if x in c then [] else [x])
    decreases |m|
  {
    var n := |m| - 1;
    assert (c + m)[..|c + m| - 1] == c + m[..n];
    if n > 0 {
      DeduplicatedAppendCopies(c, m[..n], x);
      assert (c + m[..n])[|c|] == x;
    } else {
      assert c + m[..n] == c;
    }
  }

  /** The runes of `Common(a, b)` are those of `a` that occur in `b`. */
  lemma {:induction false} CommonElems(a: seq<char>, b: seq<char>)
    ensures Elems(Common(a, b)) == Elems(a) * Elems(b)
  {
    if |a| > 0 {
      var init, x := a[..|a| - 1], a[|a| - 1];
      CommonElems(init, b);
      MatchesSpec(x, b);
      ElemsAppend(Common(init, b), Matches(x, b));
      assert a == init + [x];
      ElemsAppend(init, [x]);
      if x in b {
        assert Matches(x, b)[0] == x;
      }
      assert Elems(Matches(x, b)) == if x in b then {x} else {};
    }
  }

  /**
   * An independent description of `intersection`: deduplicate `a`, then keep
   * the runes that occur in `b`.
   */
  lemma {:induction false} IntersectedIsKeepIn(a: seq<char>, b: seq<char>)
    ensures Intersected(a, b) == KeepIn(Deduplicated(a), b)
  {
    if |a| > 0 {
      var init, x := a[..|a| - 1], a[|a| - 1];
      var c, m := Common(init, b), Matches(x, b);
      IntersectedIsKeepIn(init, b);
      MatchesSpec(x, b);
      var d := Deduplicated(init);
      assert Deduplicated(a) == d + (if x in init then [] else [x]);
      if x in b {
        DeduplicatedAppendCopies(c, m, x);
        CommonElems(init, b);
        assert x in c <==> x in Elems(c);
        if x !in init {
          assert (d + [x])[..|d|] == d;
        }
      } else {
        assert m == [];
        assert c + m == c;
        if x !in init {
          assert (d + [x])[..|d|] == d;
        }
      }
    }
  }

  /** Keeping the runes that occur in `b` drops exactly the others. */
  lemma {:induction false} KeepInElems(s: seq<char>, b: seq<char>)
    ensures Elems(KeepIn(s, b)) == Elems(s) * Elems(b)
  {
    if |s| > 0 {
      var init, x := s[..|s| - 1], s[|s| - 1];
      KeepInElems(init, b);
      assert s == init + [x];
      ElemsAppend(init, [x]);
      ElemsAppend(KeepIn(init, b), if x in b then [x] else []);
    }
  }

  /** Keeping the runes that occur in `b` preserves the first-occurrence order. */
  lemma {:induction false} KeepInOrder(s: seq<char>, a: seq<char>, b: seq<char>)
    requires InFirstOccurrenceOrder(s, a)
    ensures InFirstOccurrenceOrder(KeepIn(s, b), a)
  {
    if |s| > 0 {
      var init, x := s[..|s| - 1], s[|s| - 1];
      var k := KeepIn(init, b);
      assert InFirstOccurrenceOrder(init, a);
      KeepInOrder(init, a, b);
      if x in b {
        KeepInElems(init, b);
        forall i | 0 <= i < |k|
          ensures k[i] in a && x in a && FirstIndex(a, k[i]) < FirstIndex(a, x)
        {
          assert k[i] in Elems(k);
          assert k[i] in Elems(init);
          var p :| 0 <= p < |init| && init[p] == k[i];
          assert s[p] == k[i];
        }
        assert KeepIn(s, b) == k + [x];
        OrderSnoc(k, x, a);
      } else {
        assert KeepIn(s, b) == k;
      }
    }
  }

  /** A rune that first occurs after all of `k` can be appended to it. */
  lemma OrderSnoc(k: seq<char>, x: char, a: seq<char>)
    requires InFirstOccurrenceOrder(k, a)
    requires forall i :: 0 <= i < |k| ==> k[i] in a && x in a && FirstIndex(a, k[i]) < FirstIndex(a, x)
    requires x in a
    ensures InFirstOccurrenceOrder(k + [x], a)
  {
    var r := k + [x];
    forall i, j | 0 <= i < j < |r|
      ensures r[i] in a && r[j] in a && FirstIndex(a, r[i]) < FirstIndex(a, r[j])
    {
      if j < |k| {
        assert r[i] == k[i] && r[j] == k[j];
      } else {
        assert r[i] == k[i] && r[j] == x;
      }
    }
  }

  /**
   * What `intersection` promises: the runes of `a` that occur in `b`, each
   * once, in the order of their first occurrence in `a`.
   */
  lemma IntersectedSpec(a: seq<char>, b: seq<char>)
    ensures Elems(Intersected(a, b)) == Elems(a) * Elems(b)
    ensures NoDup(Intersected(a, b))
    ensures InFirstOccurrenceOrder(Intersected(a, b), a)
  {
    DeduplicatedSpec(a);
    IntersectedIsKeepIn(a, b);
    KeepInElems(Deduplicated(a), b);
    KeepInOrder(Deduplicated(a), a, b);
    var r := Intersected(a, b);
    forall i, j | 0 <= i < j < |r|
      ensures r[i] != r[j]
    {
      assert FirstIndex(a, r[i]) < FirstIndex(a, r[j]);
    }
  }

  /** The properties of IntersectedSpec determine the result. */
  lemma IntersectedUnique(a: seq<char>, b: seq<char>, r: seq<char>)
    requires Elems(r) == Elems(a) * Elems(b)
    requires InFirstOccurrenceOrder(r, a)
    ensures r == Intersected(a, b)
  {
    var t := Intersected(a, b);
    IntersectedSpec(a, b);
    var before := (x: char, y: char) => x in a && y in a && FirstIndex(a, x) < FirstIndex(a, y);
    assert Chain(r, before);
    assert Chain(t, before);
    ChainUnique(r, t, before);
  }

  /** An empty side gives an empty intersection. */
  lemma IntersectedEmpty(a: seq<char>, b: seq<char>)
    requires a == [] || b == []
    ensures Intersected(a, b) == []
  {
    IntersectedSpec(a, b);
    ElemsEmpty(a);
    ElemsEmpty(b);
    ElemsEmpty(Intersected(a, b));
  }

  /** Example from src/interview/main_test.go. */
  lemma IntersectedApplePie()
    ensures Intersected("apple", "pie") == "pe"
  {
    FirstIndexUnique("apple", 'p', 1);
    FirstIndexUnique("apple", 'e', 4);
    assert Elems("pe") == Elems("apple") * Elems("pie");
    IntersectedUnique("apple", "pie", "pe");
  }

  /** Example from src/interview/main_test.go: repeats are dropped. */
  lemma IntersectedRepeated()
    ensures Intersected("eeeeeee", "e") == "e"
  {
    assert Elems("e") == Elems("eeeeeee") * Elems("e");
    IntersectedUnique("eeeeeee", "e", "e");
  }

  /** Example from src/interview/main_test.go: no common rune. */
  lemma IntersectedDisjoint()
    ensures Intersected("a", "b") == ""
  {
    assert Elems("") == Elems("a") * Elems("b");
    IntersectedUnique("a", "b", "");
  }

  /** A string without repeated runes intersected with itself, from src/interview/main_test.go. */
  lemma IntersectedSelf(s: seq<char>)
    requires NoDup(s)
    ensures Intersected(s, s) == s
  {
    forall i, j | 0 <= i < j < |s|
      ensures FirstIndex(s, s[i]) < FirstIndex(s, s[j])
    {
      FirstIndexUnique(s, s[i], i);
      FirstIndexUnique(s, s[j], j);
    }
    IntersectedUnique(s, s, s);
  }
}
