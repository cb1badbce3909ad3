/**
 * Records: the keys under which answers live in the key-value store, and
 * the store writes. An answer for item `i` of batch `b` is written with
 * `SETEX "<b>_<i>"` (main.go:261) and read back by the validator with
 * `GET "<b>_<i>"` (main.go:174-176). The store itself is not part of this
 * model: writes are values, and the store they produce is a `map`.
 */
module Records {
  import opened Text

  /** `fmt.Sprintf("%s_%d", batch, i)`. */
  function Key(batch: String, i: nat): String
  {
    batch + "_" + Itoa(i)
  }

  /**
   * Different (batch, index) pairs never share a key, whatever the batch
   * names contain: the index has no '_', so the last '_' of a key separates
   * the batch name from the index.
   */
  lemma KeyInjective(b1: String, i1: nat, b2: String, i2: nat)
    requires Key(b1, i1) == Key(b2, i2)
    ensures b1 == b2 && i1 == i2
  {
    KeyShape(b1, i1);
    KeyShape(b2, i2);
    assert |b1| == |b2|;
    ItoaInjective(i1, i2);
  }

  /** A key is the batch name, '_', then digits only: its last '_' ends the name. */
  lemma KeyShape(b: String, i: nat)
    ensures var s := Key(b, i);
      && |s| > |b| && s[..|b|] == b && s[|b|] == '_' && s[|b| + 1..] == Itoa(i)
      && forall p :: |b| < p < |s| ==> s[p] != '_'
  {
    var s, d := Key(b, i), Itoa(i);
    assert s[|b| + 1..] == d;
    assert forall p :: |b| < p < |s| ==> s[p] == d[p - |b| - 1];
  }

  /** `int(2*time.Hour.Seconds())`: the lifetime of every record, in seconds. */
  const TTL: int := 7200

  /** One `SETEX key ttl value` issued to the store, and whether it succeeded. */
  datatype SetEx = SetEx(key: String, ttl: int, value: String, ok: bool)

  /** The records after the writes, applied in order; a failed write changes nothing. */
  function Apply(store: map<String, String>, writes: seq<SetEx>): map<String, String>
  {
    if |writes| == 0 then store
    else
      var w := writes[|writes| - 1];
      var before := Apply(store, writes[..|writes| - 1]);
      if w.ok then before[w.key := w.value] else before
  }

  /** A key that no successful write names keeps its old record, or stays absent. */
  lemma {:induction false} ApplyOther(store: map<String, String>, writes: seq<SetEx>, key: String)
    requires forall i :: 0 <= i < |writes| && writes[i].ok ==> writes[i].key != key
    ensures key in Apply(store, writes) <==> key in store
    ensures key in store ==> Apply(store, writes)[key] == store[key]
  {
    if |writes| > 0 {
      ApplyOther(store, writes[..|writes| - 1], key);
    }
  }

  /** The last successful write to a key decides its record. */
  lemma {:induction false} ApplyLast(store: map<String, String>, writes: seq<SetEx>, i: nat)
    requires i < |writes| && writes[i].ok
    requires forall j :: i < j < |writes| && writes[j].ok ==> writes[j].key != writes[i].key
    ensures writes[i].key in Apply(store, writes)
    ensures Apply(store, writes)[writes[i].key] == writes[i].value
  {
    var n := |writes| - 1;
    if i < n {
      ApplyLast(store, writes[..n], i);
    }
  }

  /** Applying two runs of writes is applying one after the other. */
  lemma {:induction false} ApplyAppend(store: map<String, String>, w1: seq<SetEx>, w2: seq<SetEx>)
    ensures Apply(store, w1 + w2) == Apply(Apply(store, w1), w2)
  {
    if |w2| > 0 {
      var n := |w2| - 1;
      assert (w1 + w2)[..|w1 + w2| - 1] == w1 + w2[..n];
      ApplyAppend(store, w1, w2[..n]);
    } else {
      assert w1 + w2 == w1;
    }
  }
}
