/**
 * Unions: `union` (main.go:451-453) and `unionSort` (main.go:455-466).
 *
 * `unionSort` orders runes with an American-English collator from
 * golang.org/x/text/collate. The collation tables are not part of this
 * model: the order is a parameter `leq`, and the properties are proved for
 * every total order. The collator's in-place sort of the rune slice is the
 * insertion sort `Sort` on values; under a total order every sorting
 * algorithm gives that same sequence (SortedUnique).
 */
module Unions {
  import opened Runes
  import opened Dedup

  /**
   * `union`: the runes of `a` and then of `b`, each once, ordered by first
   * appearance in `a` and then in `b`.
   */
  function Union(a: seq<char>, b: seq<char>): (r: seq<char>)
    ensures Elems(r) == Elems(a) + Elems(b)
    ensures NoDup(r)
    ensures InFirstOccurrenceOrder(r, a + b)
    ensures Deduplicated(a) <= r
  {
    DeduplicatedSpec(a + b);
    ElemsAppend(a, b);
    DeduplicatedPrefix(a, b);
    Deduplicated(a + b)
  }

  /** The union with an empty string is the deduplication. */
  lemma UnionEmpty(a: seq<char>)
    ensures Union(a, []) == Deduplicated(a)
    ensures Union([], a) == Deduplicated(a)
  {
    assert a + [] == a;
    assert [] + a == a;
  }

  /** The buffer of the `union` example, deduplicated rune by rune. */
  lemma ApplePie()
    ensures Deduplicated("applepie") == "aplei"
  {
    var s0, s1, s2 := "apple", "applep", "applepi";
    DeduplicatedApple();
    assert s0[1] == 'p';
    DeduplicatedSnoc(s0, 'p');
    assert s0 + ['p'] == s1;
    assert Deduplicated(s1) == "aple";
    assert forall k :: 0 <= k < |s1| ==> s1[k] != 'i';
    DeduplicatedSnoc(s1, 'i');
    assert s1 + ['i'] == s2;
    assert Deduplicated(s2) == "aplei";
    assert s2[4] == 'e';
    DeduplicatedSnoc(s2, 'e');
    assert s2 + ['e'] == "applepie";
  }

  /** Example from src/interview/main_test.go. */
  lemma UnionExample()
    ensures Union("apple", "pie") == "aplei"
  {
    ApplePie();
    assert "apple" + "pie" == "applepie";
  }

  /** Example from src/interview/main_test.go: a rune common to both appears once. */
  lemma UnionRepeated()
    ensures Union("eeeeeee", "e") == "e"
  {
    assert "eeeeeee" + "e" == "eeeeeeee";
    assert Elems("e") == Elems("eeeeeeee");
    DeduplicatedUnique("eeeeeeee", "e");
  }

  /** Example from src/interview/main_test.go: disjoint operands are concatenated. */
  lemma UnionDisjoint()
    ensures Union("a", "b") == "ab"
  {
    assert "a" + "b" == "ab";
    FirstIndexUnique("ab", 'a', 0);
    FirstIndexUnique("ab", 'b', 1);
    DeduplicatedUnique("ab", "ab");
  }

  /** `leq` is a total order on runes: reflexive, antisymmetric, transitive and total. */
  ghost predicate TotalOrder(leq: (char, char) -> bool)
  {
    && (forall x :: leq(x, x))
    && (forall x, y :: leq(x, y) && leq(y, x) ==> x == y)
    && (forall x, y, z :: leq(x, y) && leq(y, z) ==> leq(x, z))
    && (forall x, y :: leq(x, y) || leq(y, x))
  }

  predicate Sorted(s: seq<char>, leq: (char, char) -> bool)
  {
    forall i, j :: 0 <= i < j < |s| ==> leq(s[i], s[j])
  }

  /** Insert `x` before the first element it is at most. */
  function Insert(x: char, s: seq<char>, leq: (char, char) -> bool): seq<char>
  {
    if |s| == 0 then [x]
    else if leq(x, s[0]) then [x] + s
    else [s[0]] + Insert(x, s[1..], leq)
  }

  /** The collator's sort of the rune slice, on values. */
  function Sort(s: seq<char>, leq: (char, char) -> bool): seq<char>
  {
    if |s| == 0 then [] else Insert(s[0], Sort(s[1..], leq), leq)
  }

  /** Inserting adds exactly one copy of `x`. */
  lemma {:induction false} InsertPermutes(x: char, s: seq<char>, leq: (char, char) -> bool)
    ensures multiset(Insert(x, s, leq)) == multiset(s) + multiset{x}
  {
    if |s| > 0 && !leq(x, s[0]) {
      InsertPermutes(x, s[1..], leq);
      assert s == [s[0]] + s[1..];
    }
  }

  /** Inserting into a sorted sequence keeps it sorted. */
  lemma {:induction false} InsertSorted(x: char, s: seq<char>, leq: (char, char) -> bool)
    requires TotalOrder(leq) && Sorted(s, leq)
    ensures Sorted(Insert(x, s, leq), leq)
  {
    if |s| > 0 && !leq(x, s[0]) {
      InsertSorted(x, s[1..], leq);
      HeadBelowInsert(x, s, leq);
    }
  }

  /** When `x` goes after the head, the head is at most every rune of the rest with `x` inserted. */
  lemma HeadBelowInsert(x: char, s: seq<char>, leq: (char, char) -> bool)
    requires TotalOrder(leq) && Sorted(s, leq)
    requires |s| > 0 && !leq(x, s[0])
    ensures forall j :: 0 <= j < |Insert(x, s[1..], leq)| ==> leq(s[0], Insert(x, s[1..], leq)[j])
  {
    var r := Insert(x, s[1..], leq);
    InsertPermutes(x, s[1..], leq);
    forall j | 0 <= j < |r|
      ensures leq(s[0], r[j])
    {
      assert r[j] in multiset(r);
      if r[j] != x {
        assert r[j] in multiset(s[1..]);
        var k :| 0 <= k < |s[1..]| && s[1..][k] == r[j];
        assert s[k + 1] == r[j];
      }
    }
  }

  /** Whatever the order, the sort only rearranges its input. */
  lemma {:induction false} SortPermutes(s: seq<char>, leq: (char, char) -> bool)
    ensures multiset(Sort(s, leq)) == multiset(s)
  {
    if |s| > 0 {
      SortPermutes(s[1..], leq);
      InsertPermutes(s[0], Sort(s[1..], leq), leq);
      assert s == [s[0]] + s[1..];
    }
  }

  /** Under a total order the sort yields a sorted permutation of its input. */
  lemma {:induction false} SortSpec(s: seq<char>, leq: (char, char) -> bool)
    requires TotalOrder(leq)
    ensures Sorted(Sort(s, leq), leq)
    ensures multiset(Sort(s, leq)) == multiset(s)
  {
    SortPermutes(s, leq);
    if |s| > 0 {
      SortSpec(s[1..], leq);
      InsertSorted(s[0], Sort(s[1..], leq), leq);
    }
  }

  /** The head of a sorted sequence is at most each of its elements. */
  lemma HeadIsLeast(t: seq<char>, x: char, leq: (char, char) -> bool)
    requires TotalOrder(leq) && Sorted(t, leq)
    requires x in multiset(t)
    ensures leq(t[0], x)
  {
    var k :| 0 <= k < |t| && t[k] == x;
    if k == 0 {
      assert leq(x, x);
    }
  }

  /** Under a total order a sorted permutation is unique. */
  lemma {:induction false} SortedUnique(t1: seq<char>, t2: seq<char>, leq: (char, char) -> bool)
    requires TotalOrder(leq)
    requires Sorted(t1, leq) && Sorted(t2, leq)
    requires multiset(t1) == multiset(t2)
    ensures t1 == t2
  {
    if |t1| > 0 {
      SameHead(t1, t2, leq);
      SortedUnique(t1[1..], t2[1..], leq);
      assert t1 == [t1[0]] + t1[1..] && t2 == [t2[0]] + t2[1..];
    } else {
      assert |multiset(t2)| == 0;
    }
  }

  /** Two sorted permutations start with the same rune, and what follows is again a sorted permutation. */
  lemma SameHead(t1: seq<char>, t2: seq<char>, leq: (char, char) -> bool)
    requires TotalOrder(leq)
    requires Sorted(t1, leq) && Sorted(t2, leq)
    requires multiset(t1) == multiset(t2) && |t1| > 0
    ensures t1[0] == t2[0]
    ensures Sorted(t1[1..], leq) && Sorted(t2[1..], leq)
    ensures multiset(t1[1..]) == multiset(t2[1..])
  {
    assert t1[0] in multiset(t2) && t2[0] in multiset(t1);
    HeadIsLeast(t1, t2[0], leq);
    HeadIsLeast(t2, t1[0], leq);
    SortedTail(t1, leq);
    SortedTail(t2, leq);
  }

  /** Dropping the head keeps a sequence sorted and removes one copy of the head. */
  lemma SortedTail(t: seq<char>, leq: (char, char) -> bool)
    requires |t| > 0 && Sorted(t, leq)
    ensures Sorted(t[1..], leq)
    ensures multiset(t[1..]) == multiset(t) - multiset{t[0]}
  {
    assert t == [t[0]] + t[1..];
  }

  /** Any sorted permutation of `s` is what `Sort` returns. */
  lemma SortIsAnySortedPermutation(s: seq<char>, t: seq<char>, leq: (char, char) -> bool)
    requires TotalOrder(leq)
    requires Sorted(t, leq) && multiset(t) == multiset(s)
    ensures t == Sort(s, leq)
  {
    SortSpec(s, leq);
    SortedUnique(t, Sort(s, leq), leq);
  }

  /** The value `unionSort(a, b)` returns. */
  function SortedUnion(a: seq<char>, b: seq<char>, leq: (char, char) -> bool): seq<char>
  {
    Deduplicated(Sort(a + b, leq))
  }

  /** `unionSort`: collect the runes of `a` then `b`, sort them, deduplicate. */
  method UnionSort(a: seq<char>, b: seq<char>, leq: (char, char) -> bool) returns (r: seq<char>)
    ensures r == SortedUnion(a, b, leq)
  {
    var j: seq<char> := [];
    for i := 0 to |a|
      invariant j == a[..i]
    {
      j := j + [a[i]];
    }
    for i := 0 to |b|
      invariant j == a + b[..i]
    {
      j := j + [b[i]];
    }
    assert b[..|b|] == b;
    j := Sort(j, leq);
    r := Deduplicate(j);
  }

  /** Strictly increasing under `leq`. */
  predicate StrictlySorted(s: seq<char>, leq: (char, char) -> bool)
  {
    forall i, j :: 0 <= i < j < |s| ==> leq(s[i], s[j]) && s[i] != s[j]
  }

  /** Whatever the order, `unionSort` returns each rune of both strings once. */
  lemma SortedUnionElems(a: seq<char>, b: seq<char>, leq: (char, char) -> bool)
    ensures Elems(SortedUnion(a, b, leq)) == Elems(a) + Elems(b)
    ensures NoDup(SortedUnion(a, b, leq))
  {
    var t := Sort(a + b, leq);
    SortPermutes(a + b, leq);
    DeduplicatedSpec(t);
    ElemsAppend(a, b);
    assert forall c :: c in t <==> c in multiset(t);
    assert forall c :: c in a + b <==> c in multiset(a + b);
    assert Elems(t) == Elems(a + b);
  }

  /**
   * What `unionSort` promises: the runes of both strings, each once, in
   * strictly increasing collation order.
   */
  lemma SortedUnionSpec(a: seq<char>, b: seq<char>, leq: (char, char) -> bool)
    requires TotalOrder(leq)
    ensures Elems(SortedUnion(a, b, leq)) == Elems(a) + Elems(b)
    ensures StrictlySorted(SortedUnion(a, b, leq), leq)
  {
    var t := Sort(a + b, leq);
    var r := Deduplicated(t);
    SortSpec(a + b, leq);
    DeduplicatedSpec(t);
    SortedUnionElems(a, b, leq);
    forall i, j | 0 <= i < j < |r|
      ensures leq(r[i], r[j]) && r[i] != r[j]
    {
      var p, q := FirstIndex(t, r[i]), FirstIndex(t, r[j]);
      assert leq(t[p], t[q]);
    }
  }

  /** The properties of SortedUnionSpec determine the result. */
  lemma SortedUnionUnique(a: seq<char>, b: seq<char>, leq: (char, char) -> bool, r: seq<char>)
    requires TotalOrder(leq)
    requires Elems(r) == Elems(a) + Elems(b)
    requires StrictlySorted(r, leq)
    ensures r == SortedUnion(a, b, leq)
  {
    var u := SortedUnion(a, b, leq);
    SortedUnionSpec(a, b, leq);
    var lt := (x: char, y: char) => leq(x, y) && x != y;
    assert Chain(r, lt) && Chain(u, lt);
    ChainUnique(r, u, lt);
  }

  /** Unlike `union`, `unionSort` does not depend on the order of its arguments. */
  lemma SortedUnionCommutes(a: seq<char>, b: seq<char>, leq: (char, char) -> bool)
    requires TotalOrder(leq)
    ensures SortedUnion(a, b, leq) == SortedUnion(b, a, leq)
  {
    SortedUnionSpec(b, a, leq);
    SortedUnionUnique(a, b, leq, SortedUnion(b, a, leq));
  }

  /** Code-point order: 'Z' comes before 'a', and 'é' after 'z'. */
  predicate CodePointOrder(x: char, y: char)
  {
    x <= y
  }

  /** Code-point order is a total order. */
  lemma CodePointTotal()
    ensures TotalOrder(CodePointOrder)
  {
  }

  /** Example from src/interview/main_test.go, under code-point order. */
  lemma SortedUnionApplePie()
    ensures SortedUnion("apple", "pie", CodePointOrder) == "aeilp"
  {
    CodePointTotal();
    assert Elems("aeilp") == Elems("apple") + Elems("pie");
    SortedUnionUnique("apple", "pie", CodePointOrder, "aeilp");
  }

  /** Example from src/interview/main_test.go: operands out of order are sorted. */
  lemma SortedUnionSwapped()
    ensures SortedUnion("b", "a", CodePointOrder) == "ab"
  {
    CodePointTotal();
    assert Elems("ab") == Elems("b") + Elems("a");
    SortedUnionUnique("b", "a", CodePointOrder, "ab");
  }

  /** Example from src/interview/main_test.go: repeats are dropped. */
  lemma SortedUnionRepeated()
    ensures SortedUnion("eeeeeee", "e", CodePointOrder) == "e"
  {
    CodePointTotal();
    assert Elems("e") == Elems("eeeeeee") + Elems("e");
    SortedUnionUnique("eeeeeee", "e", CodePointOrder, "e");
  }
}
