/**
 * Validation: the loop of `validateBatchHandler` (main.go:168-201) that
 * checks a candidate's submission for one batch.
 *
 * The body is split at '\n'. Line `i` (counting every line, blank or not)
 * is compared with the record under key "<batch>_<i>"; blank lines are
 * skipped. Each differing line adds a mismatch line to the response; a
 * failed query, a missing record or a record that is not text stops the
 * check at once with an error message. The submission is accepted ("ok")
 * only when the loop completes with no mismatch.
 *
 * The store's reply to each GET is a parameter `get`.
 */
module Validation {
  import opened Runes
  import opened Text
  import opened Records

  /**
   * What a GET of a record key yields: its text, nil (no such record), an
   * error from the query, or a value `redis.String` cannot read as text.
   */
  datatype GetReply = Found(data: String) | Nil | QueryError | NotText

  /** A submitted line `index` that differs from its record. */
  datatype Mismatch = Mismatch(index: nat, got: String, want: String)

  /** Why the loop stopped: it completed, or it stopped early at an unusable record. */
  datatype Stop = Done | NotFound(key: String) | QueryFailed | Unreadable

  /** The mismatches found, in line order, and why the loop stopped. */
  datatype Scan = Scan(mismatches: seq<Mismatch>, stop: Stop)

  /** The check of lines `i..` of the submission. */
  function Check(batch: String, lines: seq<String>, i: nat, get: String -> GetReply): Scan
    requires i <= |lines|
    decreases |lines| - i
  {
    if i == |lines| then Scan([], Done)
    else if lines[i] == "" then Check(batch, lines, i + 1, get)
    else
      var key := Key(batch, i);
      match get(key)
      case QueryError => Scan([], QueryFailed)
      case Nil => Scan([], NotFound(key))
      case NotText => Scan([], Unreadable)
      case Found(data) =>
        var rest := Check(batch, lines, i + 1, get);
        if data == lines[i] then rest
        else Scan([Mismatch(i, lines[i], data)] + rest.mismatches, rest.stop)
  }

  /** The check of a whole submission. */
  function Validate(batch: String, body: String, get: String -> GetReply): Scan
  {
    Check(batch, Split(body, '\n'), 0, get)
  }

  /** The submission is accepted: the loop completed and found no mismatch. */
  predicate Accepted(s: Scan)
  {
    s.stop == Done && s.mismatches == []
  }

  /** `fmt.Sprintf("invalid submission %s_%d got %s, want %s\n", batch, i, line, data)`. */
  function MismatchLine(batch: String, m: Mismatch): String
  {
    "invalid submission " + Key(batch, m.index) + " got " + m.got + ", want " + m.want + "\n"
  }

  /** The mismatch lines written so far. */
  function MismatchText(batch: String, ms: seq<Mismatch>): String
  {
    if |ms| == 0 then []
    else MismatchText(batch, ms[..|ms| - 1]) + MismatchLine(batch, ms[|ms| - 1])
  }

  /** One more mismatch adds its line. */
  lemma MismatchTextSnoc(batch: String, ms: seq<Mismatch>, m: Mismatch)
    ensures MismatchText(batch, ms + [m]) == MismatchText(batch, ms) + MismatchLine(batch, m)
  {
    assert (ms + [m])[..|ms|] == ms;
  }

  /** The message `handleErr` writes when the loop stops early. */
  function StopMessage(stop: Stop): String
  {
    match stop
    case Done => []
    case NotFound(key) => "batch '" + key + "' does not exist"
    case QueryFailed => "unable to query key store"
    case Unreadable => "unable to read data"
  }

  /** The HTTP status `handleErr` asks for when the loop stops early. */
  function StopCode(stop: Stop): int
  {
    match stop
    case NotFound(_) => 404
    case _ => 500
  }

  /** The response body: the mismatch lines, then "ok" or the error message. */
  function ResponseBody(batch: String, s: Scan): String
  {
    MismatchText(batch, s.mismatches)
      + (if s.stop != Done then StopMessage(s.stop) + "\n"
         else if s.mismatches == [] then "ok\n"
         else [])
  }

  /**
   * The HTTP status of the response. The first write fixes the status at
   * 200, so an error after a mismatch line is still answered with 200.
   */
  function ResponseCode(s: Scan): int
  {
    if s.stop != Done && s.mismatches == [] then StopCode(s.stop) else 200
  }

  /**
   * `handleErr`: ask for `status` unless something is already written (the
   * first write fixes the status at 200), then write the message.
   */
  method HandleErr(written: String, code: int, status: int, msg: String) returns (written': String, code': int)
    ensures written' == written + msg + "\n"
    ensures code' == if code == 0 then status else code
  {
    code' := if code == 0 then status else code;
    written' := written + msg + "\n";
  }

  /** The check of lines `i..` when line `i` is checked and its record cannot be used. */
  lemma CheckBlocked(batch: String, lines: seq<String>, get: String -> GetReply, i: nat)
    requires i < |lines| && Blocked(batch, lines, get, i)
    ensures Check(batch, lines, i, get) == Scan([], StopAt(batch, lines, get, i))
  {
  }

  /**
   * A line whose record is found: the check of the whole submission is the
   * mismatches so far, this line's mismatch if the record differs, and the
   * check of the lines after it.
   */
  lemma CheckFound(batch: String, lines: seq<String>, get: String -> GetReply, i: nat, ms: seq<Mismatch>)
    requires i < |lines| && lines[i] != "" && get(Key(batch, i)).Found?
    requires Check(batch, lines, 0, get)
      == Scan(ms + Check(batch, lines, i, get).mismatches, Check(batch, lines, i, get).stop)
    ensures var data := get(Key(batch, i)).data;
      var ms' := if data != lines[i] then ms + [Mismatch(i, lines[i], data)] else ms;
      Check(batch, lines, 0, get)
        == Scan(ms' + Check(batch, lines, i + 1, get).mismatches, Check(batch, lines, i + 1, get).stop)
  {
    var data := get(Key(batch, i)).data;
    var rest := Check(batch, lines, i + 1, get);
    if data != lines[i] {
      var m := Mismatch(i, lines[i], data);
      assert (ms + [m]) + rest.mismatches == ms + ([m] + rest.mismatches);
    }
  }

  /**
   * The loop of `validateBatchHandler`: returns what it writes to the
   * response and the status the response gets (0 while nothing is written).
   */
  method ValidateBatch(batch: String, body: String, get: String -> GetReply) returns (written: String, code: int)
    ensures written == ResponseBody(batch, Validate(batch, body, get))
    ensures code == ResponseCode(Validate(batch, body, get))
  {
    written, code := [], 0;
    var submissionValid := true;
    var lines := Split(body, '\n');
    ghost var mismatches: seq<Mismatch> := [];
    var i := 0;
    while i < |lines|
      invariant 0 <= i <= |lines|
      invariant Check(batch, lines, 0, get)
        == Scan(mismatches + Check(batch, lines, i, get).mismatches, Check(batch, lines, i, get).stop)
      invariant written == MismatchText(batch, mismatches)
      invariant submissionValid <==> mismatches == []
      invariant code == if mismatches == [] then 0 else 200
    {
      var line := lines[i];
      if line == "" {
        i := i + 1;
        continue;
      }
      var key := Key(batch, i);
      var resp := get(key);
      if !resp.Found? {
        CheckBlocked(batch, lines, get, i);
        assert mismatches + [] == mismatches;
        var stop := StopAt(batch, lines, get, i);
        assert Validate(batch, body, get) == Scan(mismatches, stop) && stop != Done;
        written, code := HandleErr(written, code, StopCode(stop), StopMessage(stop));
        return;
      }
      var data := resp.data;
      CheckFound(batch, lines, get, i, mismatches);
      if data != line {
        var m := Mismatch(i, line, data);
        MismatchTextSnoc(batch, mismatches, m);
        submissionValid := false;
        written := written + MismatchLine(batch, m);
        code := 200;
        mismatches := mismatches + [m];
      }
      i := i + 1;
    }
    assert mismatches + [] == mismatches;
    assert Validate(batch, body, get) == Scan(mismatches, Done);
    if submissionValid {
      written := written + "ok\n";
      code := 200;
    }
  }

  /** A checked line whose record cannot be used: the loop stops there. */
  predicate Blocked(batch: String, lines: seq<String>, get: String -> GetReply, j: nat)
    requires j < |lines|
  {
    lines[j] != "" && !get(Key(batch, j)).Found?
  }

  /** Where the check of lines `i..` stops: the first blocked line, or the end. */
  ghost function End(batch: String, lines: seq<String>, get: String -> GetReply, i: nat): (e: nat)
    requires i <= |lines|
    ensures i <= e <= |lines|
    ensures forall j :: i <= j < e ==> !Blocked(batch, lines, get, j)
    ensures e < |lines| ==> Blocked(batch, lines, get, e)
    decreases |lines| - i
  {
    if i == |lines| then i
    else if Blocked(batch, lines, get, i) then i
    else End(batch, lines, get, i + 1)
  }

  /** The reason the loop gives for stopping at line `e`. */
  function StopAt(batch: String, lines: seq<String>, get: String -> GetReply, e: nat): Stop
    requires e <= |lines|
  {
    if e == |lines| then Done
    else match get(Key(batch, e))
      case QueryError => QueryFailed
      case Nil => NotFound(Key(batch, e))
      case _ => Unreadable
  }

  /** The check stops at the first blocked line, for the reason that line's record gives. */
  lemma {:induction false} CheckStop(batch: String, lines: seq<String>, get: String -> GetReply, i: nat)
    requires i <= |lines|
    ensures Check(batch, lines, i, get).stop == StopAt(batch, lines, get, End(batch, lines, get, i))
    decreases |lines| - i
  {
    if i < |lines| && !Blocked(batch, lines, get, i) {
      CheckStop(batch, lines, get, i + 1);
    }
  }

  /** A checked line whose record exists and differs from it. */
  predicate Differs(batch: String, lines: seq<String>, get: String -> GetReply, j: nat)
    requires j < |lines|
  {
    lines[j] != "" && get(Key(batch, j)).Found? && get(Key(batch, j)).data != lines[j]
  }

  /**
   * Every mismatch reported by the check of lines `i..` is a differing line
   * before the line where it stops, with the submitted and the stored text.
   */
  lemma {:induction false} MismatchesSound(batch: String, lines: seq<String>, get: String -> GetReply, i: nat)
    requires i <= |lines|
    ensures forall m :: m in Check(batch, lines, i, get).mismatches ==>
      && i <= m.index < End(batch, lines, get, i)
      && Differs(batch, lines, get, m.index)
      && m.got == lines[m.index]
      && m.want == get(Key(batch, m.index)).data
    decreases |lines| - i
  {
    if i < |lines| && !Blocked(batch, lines, get, i) {
      assert End(batch, lines, get, i) == End(batch, lines, get, i + 1);
      MismatchesSound(batch, lines, get, i + 1);
      var rest := Check(batch, lines, i + 1, get).mismatches;
      var ms := Check(batch, lines, i, get).mismatches;
      if Differs(batch, lines, get, i) {
        assert ms == [Mismatch(i, lines[i], get(Key(batch, i)).data)] + rest;
      } else {
        assert ms == rest;
      }
    }
  }

  /** The mismatches are reported in increasing line order. */
  lemma {:induction false} MismatchesOrdered(batch: String, lines: seq<String>, get: String -> GetReply, i: nat)
    requires i <= |lines|
    ensures forall p, q :: 0 <= p < q < |Check(batch, lines, i, get).mismatches| ==>
      Check(batch, lines, i, get).mismatches[p].index < Check(batch, lines, i, get).mismatches[q].index
    decreases |lines| - i
  {
    if i < |lines| && !Blocked(batch, lines, get, i) {
      MismatchesOrdered(batch, lines, get, i + 1);
      var rest := Check(batch, lines, i + 1, get).mismatches;
      var ms := Check(batch, lines, i, get).mismatches;
      if Differs(batch, lines, get, i) {
        MismatchesSound(batch, lines, get, i + 1);
        assert ms == [Mismatch(i, lines[i], get(Key(batch, i)).data)] + rest;
        forall p | 0 < p < |ms|
          ensures ms[p].index > i
        {
          assert ms[p] == rest[p - 1];
        }
      } else {
        assert ms == rest;
      }
    }
  }

  /** Every differing line before the line where the check stops is reported. */
  lemma {:induction false} MismatchesComplete(batch: String, lines: seq<String>, get: String -> GetReply, i: nat, j: nat)
    requires i <= |lines| && i <= j < End(batch, lines, get, i)
    requires Differs(batch, lines, get, j)
    ensures exists m :: m in Check(batch, lines, i, get).mismatches && m.index == j
    decreases |lines| - i
  {
    assert !Blocked(batch, lines, get, i);
    CheckOpen(batch, lines, get, i);
    var ms := Check(batch, lines, i, get).mismatches;
    var rest := Check(batch, lines, i + 1, get).mismatches;
    if Differs(batch, lines, get, i) {
      if j == i {
        assert ms[0] in ms && ms[0].index == j;
      } else {
        MismatchesComplete(batch, lines, get, i + 1, j);
        var m :| m in rest && m.index == j;
        assert m in ms;
      }
    } else {
      MismatchesComplete(batch, lines, get, i + 1, j);
    }
  }

  /** Past a line that does not block, the check goes on to the next line, adding this line's mismatch if it differs. */
  lemma CheckOpen(batch: String, lines: seq<String>, get: String -> GetReply, i: nat)
    requires i < |lines| && !Blocked(batch, lines, get, i)
    ensures End(batch, lines, get, i) == End(batch, lines, get, i + 1)
    ensures Check(batch, lines, i, get).mismatches
      == (if Differs(batch, lines, get, i) then [Mismatch(i, lines[i], get(Key(batch, i)).data)] else [])
        + Check(batch, lines, i + 1, get).mismatches
  {
    if !Differs(batch, lines, get, i) {
      assert [] + Check(batch, lines, i + 1, get).mismatches == Check(batch, lines, i + 1, get).mismatches;
    }
  }

  /**
   * A submission is accepted exactly when every non-blank line equals the
   * record stored for it under "<batch>_<line number>".
   */
  lemma Acceptance(batch: String, body: String, get: String -> GetReply)
    ensures var lines := Split(body, '\n');
      Accepted(Validate(batch, body, get))
      <==> forall j :: 0 <= j < |lines| && lines[j] != "" ==> get(Key(batch, j)) == Found(lines[j])
  {
    var lines := Split(body, '\n');
    var e := End(batch, lines, get, 0);
    var ms := Validate(batch, body, get).mismatches;
    CheckStop(batch, lines, get, 0);
    MismatchesSound(batch, lines, get, 0);
    if Accepted(Validate(batch, body, get)) {
      forall j | 0 <= j < |lines| && lines[j] != ""
        ensures get(Key(batch, j)) == Found(lines[j])
      {
        assert !Blocked(batch, lines, get, j);
        if Differs(batch, lines, get, j) {
          MismatchesComplete(batch, lines, get, 0, j);
        }
      }
    } else if e < |lines| {
      assert Blocked(batch, lines, get, e);
    } else {
      assert ms[0] in ms;
    }
  }

  /** A body of blank lines only is accepted, whatever the store holds. */
  lemma BlankAccepted(batch: String, body: String, get: String -> GetReply)
    requires forall i :: 0 <= i < |body| ==> body[i] == '\n'
    ensures Accepted(Validate(batch, body, get))
  {
    var lines := Split(body, '\n');
    SplitRunes(body, '\n');
    forall j | 0 <= j < |lines|
      ensures lines[j] == ""
    {
      assert Elems(lines[j]) <= Elems(body) <= {'\n'};
      assert '\n' !in Elems(lines[j]);
      ElemsEmpty(lines[j]);
    }
    Acceptance(batch, body, get);
  }

  /** The response is exactly "ok\n" when, and only when, the submission is accepted. */
  lemma ResponseOk(batch: String, s: Scan)
    ensures ResponseBody(batch, s) == "ok\n" <==> Accepted(s)
    ensures Accepted(s) ==> ResponseCode(s) == 200
  {
    var body := ResponseBody(batch, s);
    if !Accepted(s) {
      if s.mismatches != [] {
        MismatchTextStart(batch, s.mismatches);
        assert body[0] == 'i';
      } else {
        assert body == StopMessage(s.stop) + "\n";
        assert body[0] == 'b' || body[0] == 'u';
      }
    }
  }

  /** The mismatch lines begin with the first mismatch's line. */
  lemma {:induction false} MismatchTextStart(batch: String, ms: seq<Mismatch>)
    requires |ms| > 0
    ensures MismatchLine(batch, ms[0]) <= MismatchText(batch, ms)
  {
    if |ms| > 1 {
      var init := ms[..|ms| - 1];
      MismatchTextStart(batch, init);
      assert init[0] == ms[0];
    }
  }

  /** The keys of the examples, spelled out. */
  lemma ExampleKeys()
    ensures Key("b", 0) == "b_0" && Key("b", 1) == "b_1" && Key("c", 0) == "c_0"
  {
    assert Itoa(0) == "0" && Itoa(1) == "1";
  }

  /** The store of the examples: batch "b" has two records. */
  function ExampleStore(key: String): GetReply
  {
    if key == "b_0" then Found("aple")
    else if key == "b_1" then Found("e")
    else Nil
  }

  /** Both answers right: accepted. */
  lemma AcceptedExample()
    ensures Accepted(Validate("b", "aple\ne", ExampleStore))
  {
    ExampleKeys();
    var lines := ["aple", "e"];
    assert Join(lines, '\n') == "aple\ne";
    SplitJoin(lines, '\n');
    assert Check("b", lines, 2, ExampleStore) == Scan([], Done);
    assert Check("b", lines, 1, ExampleStore) == Scan([], Done);
  }

  /** A final line break adds a blank last line, which is skipped. */
  lemma TrailingLineBreakExample()
    ensures Accepted(Validate("b", "aple\ne\n", ExampleStore))
  {
    ExampleKeys();
    var lines := ["aple", "e", ""];
    assert Join(lines, '\n') == "aple\ne\n" by {
      assert lines[1..][1..] == [""];
      assert lines[1..] == ["e", ""];
    }
    SplitJoin(lines, '\n');
    assert Check("b", lines, 3, ExampleStore) == Scan([], Done);
    assert Check("b", lines, 2, ExampleStore) == Scan([], Done);
    assert Check("b", lines, 1, ExampleStore) == Scan([], Done);
  }

  /** A blank line keeps its number: the next line is still checked against record 1. */
  lemma BlankLineKeepsNumberExample()
    ensures Accepted(Validate("b", "\ne", ExampleStore))
    ensures Validate("b", "e", ExampleStore) == Scan([Mismatch(0, "e", "aple")], Done)
  {
    ExampleKeys();
    var lines := ["", "e"];
    assert Join(lines, '\n') == "\ne";
    SplitJoin(lines, '\n');
    assert Check("b", lines, 1, ExampleStore) == Scan([], Done);
    SplitJoin(["e"], '\n');
  }

  /** One wrong answer: reported with the submitted and the stored text, and not accepted. */
  lemma MismatchExample()
    ensures Validate("b", "aple\nx", ExampleStore) == Scan([Mismatch(1, "x", "e")], Done)
  {
    ExampleKeys();
    var lines := ["aple", "x"];
    assert Join(lines, '\n') == "aple\nx";
    SplitJoin(lines, '\n');
    assert Check("b", lines, 1, ExampleStore) == Scan([Mismatch(1, "x", "e")], Done);
  }

  /** A batch the store does not know: the check stops at its first key. */
  lemma UnknownBatchExample()
    ensures Validate("c", "aple", ExampleStore) == Scan([], NotFound("c_0"))
  {
    ExampleKeys();
    SplitJoin(["aple"], '\n');
  }
}
