/**
 * Mangling: `mangle` (main.go:468-487).
 *
 * `for i, runeA := range a` yields the byte offset `i` of each rune, not its
 * rune index, and so does the inner loop over `b`. A rune of `a` therefore
 * contributes only when a rune of `b` starts at the same byte offset; the
 * parity of that offset picks the rune of `a` (even) or of `b` (odd). For
 * single-byte text this is "even positions from a, odd positions from b, up
 * to the shorter length" (InterleavedAscii); for multi-byte runes it is not
 * (InterleavedByteOffsets).
 */
module Mangling {
  import opened Runes
  import opened Dedup

  /**
   * What the inner loop over `b` appends for the rune `runeA` of `a` that
   * starts at byte offset `i`: a rune for each rune of `b` starting at `i`.
   */
  function Pick(i: nat, runeA: char, b: seq<char>): seq<char>
  {
    if |b| == 0 then []
    else
      var init := b[..|b| - 1];
      Pick(i, runeA, init) + (if ByteLen(init) == i then [if i % 2 == 0 then runeA else b[|b| - 1]] else [])
  }

  /** The buffer `s` built by the two loops, before deduplication. */
  function Interleaved(a: seq<char>, b: seq<char>): seq<char>
  {
    if |a| == 0 then []
    else
      var init := a[..|a| - 1];
      Interleaved(init, b) + Pick(ByteLen(init), a[|a| - 1], b)
  }

  /** The value `mangle(a, b)` returns. */
  function Mangled(a: seq<char>, b: seq<char>): seq<char>
  {
    Deduplicated(Interleaved(a, b))
  }

  /** `mangle`: the loop over the runes of `a` with their byte offsets, then `deduplicate`. */
  method Mangle(a: seq<char>, b: seq<char>) returns (r: seq<char>)
    ensures r == Mangled(a, b)
  {
    var s: seq<char> := [];
    var ka, i := 0, 0;
    while ka < |a|
      invariant 0 <= ka <= |a|
      invariant i == ByteLen(a[..ka])
      invariant s == Interleaved(a[..ka], b)
    {
      var runeA := a[ka];
      var picked := PickRunes(i, runeA, b);
      s := s + picked;
      InterleavedSnoc(a, b, ka);
      i := i + RuneLen(runeA);
      ka := ka + 1;
    }
    assert a[..ka] == a;
    r := Deduplicate(s);
  }

  /**
   * The inner loop of `mangle` for the rune `runeA` of `a` at byte offset
   * `i`: walk `b` with its byte offsets `j` and, where `j == i`, append
   * `runeA` for an even offset or the rune of `b` for an odd one.
   */
  method PickRunes(i: nat, runeA: char, b: seq<char>) returns (t: seq<char>)
    ensures t == Pick(i, runeA, b)
  {
    t := [];
    var kb, j := 0, 0;
    while kb < |b|
      invariant 0 <= kb <= |b|
      invariant j == ByteLen(b[..kb])
      invariant t == Pick(i, runeA, b[..kb])
    {
      var runeB := b[kb];
      PickSnoc(i, runeA, b, kb);
      if j == i {
        if i % 2 == 0 {
          t := t + [runeA];
        } else {
          t := t + [runeB];
        }
      }
      j := j + RuneLen(runeB);
      kb := kb + 1;
    }
    assert b[..kb] == b;
  }

  /** One more rune of `b`: its offset, and what it adds to the pick. */
  lemma PickSnoc(i: nat, x: char, b: seq<char>, k: nat)
    requires k < |b|
    ensures ByteLen(b[..k + 1]) == ByteLen(b[..k]) + RuneLen(b[k])
    ensures Pick(i, x, b[..k + 1])
      == Pick(i, x, b[..k]) + (if ByteLen(b[..k]) == i then [if i % 2 == 0 then x else b[k]] else [])
  {
    assert b[..k + 1][..k] == b[..k];
  }

  /** One more rune of `a`: its offset, and what it adds to the buffer. */
  lemma InterleavedSnoc(a: seq<char>, b: seq<char>, k: nat)
    requires k < |a|
    ensures ByteLen(a[..k + 1]) == ByteLen(a[..k]) + RuneLen(a[k])
    ensures Interleaved(a[..k + 1], b) == Interleaved(a[..k], b) + Pick(ByteLen(a[..k]), a[k], b)
  {
    assert a[..k + 1][..k] == a[..k];
  }

  /** No rune of `b` starts at byte offset `i`: nothing is appended. */
  lemma {:induction false} PickNone(i: nat, x: char, b: seq<char>)
    requires forall m :: 0 <= m < |b| ==> Offset(b, m) != i
    ensures Pick(i, x, b) == []
  {
    if |b| > 0 {
      var init := b[..|b| - 1];
      forall m | 0 <= m < |init|
        ensures Offset(init, m) != i
      {
        assert init[..m] == b[..m];
        assert Offset(b, m) != i;
      }
      PickNone(i, x, init);
      assert Offset(b, |b| - 1) == ByteLen(init);
    }
  }

  /**
   * Rune `m` of `b` starts at byte offset `i`: exactly one rune is appended,
   * the rune of `a` when `i` is even and rune `m` of `b` when it is odd.
   */
  lemma {:induction false} PickAt(i: nat, x: char, b: seq<char>, m: nat)
    requires m < |b| && Offset(b, m) == i
    ensures Pick(i, x, b) == [if i % 2 == 0 then x else b[m]]
  {
    var n := |b| - 1;
    var init := b[..n];
    if m < n {
      OffsetIncreasing(b, m, n);
      assert init[..m] == b[..m];
      PickAt(i, x, init, m);
    } else {
      forall k | 0 <= k < |init|
        ensures Offset(init, k) != i
      {
        OffsetIncreasing(b, k, n);
        assert init[..k] == b[..k];
      }
      PickNone(i, x, init);
    }
  }

  /**
   * Each rune of `a` contributes at most one rune, and so does each rune of
   * `b`: the buffer is no longer than the shorter string, and holds only
   * runes of `a` or `b`.
   */
  lemma {:induction false} InterleavedRunes(a: seq<char>, b: seq<char>)
    ensures |Interleaved(a, b)| <= |a|
    ensures |Interleaved(a, b)| <= |b|
    ensures Elems(Interleaved(a, b)) <= Elems(a) + Elems(b)
  {
    InterleavedShorterThanB(a, b);
    if |a| > 0 {
      var init, x := a[..|a| - 1], a[|a| - 1];
      var off := ByteLen(init);
      InterleavedRunes(init, b);
      PickAtMostOne(off, x, b);
      assert a == init + [x];
      ElemsAppend(init, [x]);
      ElemsAppend(Interleaved(init, b), Pick(off, x, b));
    }
  }

  /** The inner loop appends at most one rune, `runeA` or a rune of `b`. */
  lemma PickAtMostOne(i: nat, x: char, b: seq<char>)
    ensures |Pick(i, x, b)| <= 1
    ensures Elems(Pick(i, x, b)) <= Elems([x]) + Elems(b)
  {
    if m :| 0 <= m < |b| && Offset(b, m) == i {
      PickAt(i, x, b, m);
    } else {
      PickNone(i, x, b);
    }
  }

  /** With an empty `b`, no rune of `a` is met. */
  lemma {:induction false} InterleavedNoB(a: seq<char>)
    ensures Interleaved(a, []) == []
  {
    if |a| > 0 {
      InterleavedNoB(a[..|a| - 1]);
    }
  }

  /**
   * One more rune `y` of `b`, starting at byte offset `ByteLen(b)`, meets at
   * most one rune of `a` (offsets of `a` are distinct), and none when `a`
   * ends at or before that offset.
   */
  lemma {:induction false} InterleavedSnocB(a: seq<char>, b: seq<char>, y: char)
    ensures |Interleaved(a, b + [y])| <= |Interleaved(a, b)| + (if ByteLen(a) > ByteLen(b) then 1 else 0)
  {
    if |a| > 0 {
      var init, x := a[..|a| - 1], a[|a| - 1];
      InterleavedSnocB(init, b, y);
      assert (b + [y])[..|b + [y]| - 1] == b;
      assert |Pick(ByteLen(init), x, b + [y])| == |Pick(ByteLen(init), x, b)| + (if ByteLen(b) == ByteLen(init) then 1 else 0);
    }
  }

  /** The buffer is no longer than `b`. */
  lemma {:induction false} InterleavedShorterThanB(a: seq<char>, b: seq<char>)
    ensures |Interleaved(a, b)| <= |b|
    decreases |b|
  {
    if |b| == 0 {
      InterleavedNoB(a);
    } else {
      var init := b[..|b| - 1];
      InterleavedShorterThanB(a, init);
      assert b == init + [b[|b| - 1]];
      InterleavedSnocB(a, init, b[|b| - 1]);
    }
  }

  /** Runes of `a` that start at or beyond the end of `b` contribute nothing. */
  lemma {:induction false} InterleavedIgnoresTailOfA(a: seq<char>, t: seq<char>, b: seq<char>)
    requires ByteLen(a) >= ByteLen(b)
    ensures Interleaved(a + t, b) == Interleaved(a, b)
    decreases |t|
  {
    if |t| == 0 {
      assert a + t == a;
    } else {
      var n := |t| - 1;
      assert (a + t)[..|a + t| - 1] == a + t[..n];
      InterleavedIgnoresTailOfA(a, t[..n], b);
      ByteLenAppend(a, t[..n]);
      forall m | 0 <= m < |b|
        ensures Offset(b, m) != ByteLen(a + t[..n])
      {
        OffsetIncreasing(b, m, |b|);
        assert b[..|b|] == b;
      }
      PickNone(ByteLen(a + t[..n]), t[n], b);
    }
  }

  /** Runes of `b` that start at or beyond offset `i` do not change what is picked at `i`. */
  lemma {:induction false} PickIgnoresTail(i: nat, x: char, b: seq<char>, t: seq<char>)
    requires i < ByteLen(b)
    ensures Pick(i, x, b + t) == Pick(i, x, b)
    decreases |t|
  {
    if |t| == 0 {
      assert b + t == b;
    } else {
      var n := |t| - 1;
      assert (b + t)[..|b + t| - 1] == b + t[..n];
      PickIgnoresTail(i, x, b, t[..n]);
      ByteLenAppend(b, t[..n]);
    }
  }

  /** Runes of `b` that start at or beyond the end of `a` contribute nothing. */
  lemma {:induction false} InterleavedIgnoresTailOfB(a: seq<char>, b: seq<char>, t: seq<char>)
    requires ByteLen(b) >= ByteLen(a)
    ensures Interleaved(a, b + t) == Interleaved(a, b)
  {
    if |a| > 0 {
      var init := a[..|a| - 1];
      InterleavedIgnoresTailOfB(init, b, t);
      PickIgnoresTail(ByteLen(init), a[|a| - 1], b, t);
    }
  }

  function Min(x: nat, y: nat): nat
  {
    if x <= y then x else y
  }

  /**
   * Alternation by rune index, up to the shorter length: the even-indexed
   * runes of `a` and the odd-indexed runes of `b`.
   */
  function Alternate(a: seq<char>, b: seq<char>): (r: seq<char>)
    ensures |r| == Min(|a|, |b|)
  {
    seq(Min(|a|, |b|), k requires 0 <= k < Min(|a|, |b|) => if k % 2 == 0 then a[k] else b[k])
  }

  /** On single-byte text, `mangle` alternates by rune index up to the shorter length. */
  lemma {:induction false} InterleavedAscii(a: seq<char>, b: seq<char>)
    requires IsAscii(a) && IsAscii(b)
    ensures Interleaved(a, b) == Alternate(a, b)
  {
    if |a| > 0 {
      var n := |a| - 1;
      var init, x := a[..n], a[n];
      assert IsAscii(init);
      InterleavedAscii(init, b);
      AsciiOffset(a, n);
      AlternateSnoc(a, b);
      if n < |b| {
        AsciiOffset(b, n);
        PickAt(n, x, b, n);
      } else {
        forall m | 0 <= m < |b|
          ensures Offset(b, m) != n
        {
          AsciiOffset(b, m);
        }
        PickNone(n, x, b);
      }
    }
  }

  /** One more rune of `a` adds one alternated rune while `b` lasts, and none after. */
  lemma AlternateSnoc(a: seq<char>, b: seq<char>)
    requires |a| > 0
    ensures var n := |a| - 1;
      Alternate(a, b) == Alternate(a[..n], b) + (if n < |b| then [if n % 2 == 0 then a[n] else b[n]] else [])
  {
    var n := |a| - 1;
    if n < |b| {
      assert Alternate(a, b) == Alternate(a[..n], b) + [if n % 2 == 0 then a[n] else b[n]];
    } else {
      assert Alternate(a, b) == Alternate(a[..n], b);
    }
  }

  /** Each prefix of `s`, interleaved with `s`, is given back: every rune meets its own copy. */
  lemma {:induction false} InterleavedPrefixSelf(s: seq<char>, k: nat)
    requires k <= |s|
    ensures Interleaved(s[..k], s) == s[..k]
  {
    if k > 0 {
      assert s[..k] == s[..k - 1] + [s[k - 1]];
      InterleavedPrefixSelf(s, k - 1);
      InterleavedSnoc(s, s, k - 1);
      PickAt(ByteLen(s[..k - 1]), s[k - 1], s, k - 1);
    }
  }

  /**
   * Byte offsets are not rune indices: "éa" and "xyz" interleave to "éa",
   * because the 'a' of "éa" starts at byte 2 (RFC 3629 gives 'é' two
   * bytes), where the 'z' of "xyz" starts; alternation by rune index would
   * give "éy".
   */
  lemma InterleavedByteOffsets()
    ensures Interleaved("éa", "xyz") == "éa"
    ensures Alternate("éa", "xyz") == "éy"
  {
    InterleavedTwoByte();
    AlternateTwoByte();
  }

  /** 'é' meets 'x' at byte 0 (even: 'é'), 'a' meets 'z' at byte 2 (even: 'a'). */
  lemma InterleavedTwoByte()
    ensures Interleaved("éa", "xyz") == "éa"
  {
    var a, b := "éa", "xyz";
    assert a[..0] == [] && a[..1] == ['é'] && a[..2] == a;
    InterleavedSnoc(a, b, 0);
    InterleavedSnoc(a, b, 1);
    assert ByteLen(a[..1]) == 2;
    assert b[..0] == [] && b[..1] == ['x'] && b[..2] == ['x', 'y'];
    assert Offset(b, 2) == 2;
    PickAt(0, 'é', b, 0);
    PickAt(2, 'a', b, 2);
  }

  /** By rune index, the second rune comes from `b`. */
  lemma AlternateTwoByte()
    ensures Alternate("éa", "xyz") == "éy"
  {
    var alt := Alternate("éa", "xyz");
    assert alt[0] == 'é' && alt[1] == 'y';
  }

  /** Example from src/interview/main_test.go. */
  lemma MangledExample()
    ensures Mangled("abcd", "wxyz") == "axcz"
  {
    var a, b := "abcd", "wxyz";
    assert IsAscii(a) && IsAscii(b);
    InterleavedAscii(a, b);
    assert Alternate(a, b) == "axcz";
    DeduplicatedNoDup("axcz");
  }

  /** Examples from src/interview/main_test.go: a repeat-free string mangled with itself. */
  lemma MangledSelf(s: seq<char>)
    requires NoDup(s)
    ensures Mangled(s, s) == s
  {
    InterleavedPrefixSelf(s, |s|);
    assert s[..|s|] == s;
    DeduplicatedNoDup(s);
  }

  /** Example from src/interview/main_test.go whose buffer repeats runes. */
  lemma MangledRepeatingExample()
    ensures Mangled("aaaaaa", "bbbbbb") == "ab"
  {
    var s := "ababab";
    InterleavedRepeating();
    FirstIndexUnique(s, 'a', 0);
    FirstIndexUnique(s, 'b', 1);
    assert Elems("ab") == Elems(s);
    DeduplicatedUnique(s, "ab");
  }

  /** The buffer of the repeating example, before deduplication. */
  lemma InterleavedRepeating()
    ensures Interleaved("aaaaaa", "bbbbbb") == "ababab"
  {
    var a, b := "aaaaaa", "bbbbbb";
    assert IsAscii(a) && IsAscii(b);
    InterleavedAscii(a, b);
    assert Alternate(a, b) == "ababab";
  }

  /** Example from src/interview/main_test.go whose buffer repeats runes. */
  lemma MangledReversedExample()
    ensures Mangled("abcdef", "fedcba") == "aec"
  {
    var t := "aeccea";
    InterleavedReversed();
    FirstIndexUnique(t, 'a', 0);
    FirstIndexUnique(t, 'e', 1);
    FirstIndexUnique(t, 'c', 2);
    assert Elems("aec") == Elems(t);
    DeduplicatedUnique(t, "aec");
  }

  /** The buffer of the reversed example, before deduplication. */
  lemma InterleavedReversed()
    ensures Interleaved("abcdef", "fedcba") == "aeccea"
  {
    var a, b := "abcdef", "fedcba";
    assert IsAscii(a) && IsAscii(b);
    InterleavedAscii(a, b);
    assert Alternate(a, b) == "aeccea";
  }
}
