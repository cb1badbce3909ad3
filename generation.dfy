/**
 * Generation: `genInput` (main.go:235-269), which renders `count` batches
 * of work items and stores the answer to each item under
 * "<batch>_<item number>" for the validator to compare against.
 *
 * Every random choice is an input: the batch name (a UUID), the size draw
 * `rand.Intn(MaxBatchSize)`, and for each item its API key, its transform
 * draw, its two strings and whether the store accepted the SETEX. The
 * store's answer to "is this API key valid?" is the parameter `lookup` of
 * `solution`, and the collation order is `leq`.
 *
 * The item loop runs `j := 0; j <= batchSize`, so a batch whose header
 * announces `n` items holds `n + 1` of them (HeaderAnnounces).
 */
module Generation {
  import opened Runes
  import opened Text
  import opened Records
  import opened Solver
  import opened Validation

  /**
   * A rune `genRandString` draws from: an ASCII letter or one of
   * "ñéíᅒ".
   */
  predicate Letter(c: char)
  {
    'a' <= c <= 'z' || 'A' <= c <= 'Z' || c in "ñéíᅒ"
  }

  /** `s` is drawn rune by rune from the letters, as `genRandString` draws it. */
  predicate FromLetters(s: String)
  {
    forall i :: 0 <= i < |s| ==> Letter(s[i])
  }

  /**
   * A drawn string never holds the separators of the generated text: no
   * space (which splits a work item's fields) and no line break.
   */
  lemma LettersSeparatorFree(s: String)
    requires FromLetters(s)
    ensures ' ' !in s && '\n' !in s
  {
  }

  /** The random choices behind one item, and whether its answer was stored. */
  datatype ItemDraw = ItemDraw(apiKey: String, typeDraw: int, a: String, b: String, stored: bool)

  /** The random choices behind one batch: its name, its size draw and its items. */
  datatype BatchDraw = BatchDraw(name: String, size: nat, items: seq<ItemDraw>)

  /** The item loop runs for `j` from 0 to `size` inclusive: one draw per iteration. */
  predicate WellDrawn(b: BatchDraw)
  {
    |b.items| == b.size + 1
  }

  /** The work item an item draw stands for. */
  function Item(d: ItemDraw): WorkItem
  {
    WorkItem(d.apiKey, TestType(d.typeDraw), d.a, d.b)
  }

  /** `fmt.Sprintf("%s %d", batchName, batchSize)`. */
  function HeaderLine(b: BatchDraw): String
  {
    b.name + " " + Itoa(b.size)
  }

  /** The item lines of a batch, one per item. */
  function ItemLines(items: seq<ItemDraw>): (ls: seq<String>)
    ensures |ls| == |items|
  {
    seq(|items|, k requires 0 <= k < |items| => CaseLine(Item(items[k])))
  }

  /** The lines of a batch: its header, then its items. */
  function BatchLines(b: BatchDraw): seq<String>
  {
    [HeaderLine(b)] + ItemLines(b.items)
  }

  /** The lines of all batches, in order. */
  function AllLines(bs: seq<BatchDraw>): seq<String>
  {
    if |bs| == 0 then [] else AllLines(bs[..|bs| - 1]) + BatchLines(bs[|bs| - 1])
  }

  /** Lines, each ended by '\n'. */
  function Lines(ls: seq<String>): String
  {
    if |ls| == 0 then [] else Lines(ls[..|ls| - 1]) + ls[|ls| - 1] + "\n"
  }

  /** The item lines of a batch, each ended by '\n', as the item loop appends them. */
  function ItemsText(items: seq<ItemDraw>): String
  {
    if |items| == 0 then []
    else ItemsText(items[..|items| - 1]) + CaseLine(Item(items[|items| - 1])) + "\n"
  }

  /** The text of one batch: its header line, then its item lines. */
  function BatchText(b: BatchDraw): String
  {
    HeaderLine(b) + "\n" + ItemsText(b.items)
  }

  /** The text of all batches, in order. */
  function InputText(bs: seq<BatchDraw>): String
  {
    if |bs| == 0 then [] else InputText(bs[..|bs| - 1]) + BatchText(bs[|bs| - 1])
  }

  /** The answer `solution` gives an item, for a given store and order. */
  function Answerer(lookup: String -> BoolReply, leq: (char, char) -> bool): ItemDraw -> String
  {
    d => Solution(CaseLine(Item(d)), lookup, leq)
  }

  /** The SETEX writes of one batch, in item order, each with the item's answer. */
  function ItemWrites(name: String, items: seq<ItemDraw>, answer: ItemDraw -> String): seq<SetEx>
  {
    if |items| == 0 then []
    else
      var k := |items| - 1;
      ItemWrites(name, items[..k], answer) + [SetEx(Key(name, k), TTL, answer(items[k]), items[k].stored)]
  }

  /** The SETEX writes of all batches, in order. */
  function AllWrites(bs: seq<BatchDraw>, answer: ItemDraw -> String): seq<SetEx>
  {
    if |bs| == 0 then []
    else
      var b := bs[|bs| - 1];
      AllWrites(bs[..|bs| - 1], answer) + ItemWrites(b.name, b.items, answer)
  }

  /**
   * `genInput(count)`: the text handed to the candidate and the SETEX
   * writes issued, in order. Without a store connection it returns
   * "<< error >>" and writes nothing.
   */
  method GenInput(count: int, connected: bool, batches: seq<BatchDraw>, lookup: String -> BoolReply, leq: (char, char) -> bool)
    returns (s: String, writes: seq<SetEx>)
    requires |batches| == if count < 0 then 0 else count
    requires forall p :: 0 <= p < |batches| ==> WellDrawn(batches[p])
    ensures !connected ==> s == "<< error >>" && writes == []
    ensures connected ==> s == InputText(batches) && writes == AllWrites(batches, Answerer(lookup, leq))
  {
    if !connected {
      return "<< error >>", [];
    }
    var answer := Answerer(lookup, leq);
    s, writes := [], [];
    var i := 1;
    while i <= count
      invariant 1 <= i <= |batches| + 1
      invariant s == InputText(batches[..i - 1])
      invariant writes == AllWrites(batches[..i - 1], answer)
    {
      var batch := batches[i - 1];
      var text, batchWrites := GenItems(batch, answer);
      s := s + (HeaderLine(batch) + "\n" + text);
      writes := writes + batchWrites;
      BatchesSnoc(batches, i - 1, answer);
      i := i + 1;
    }
    assert batches[..i - 1] == batches;
  }

  /**
   * The item loop of `genInput` for one batch (`for j := 0; j <= batchSize;
   * j++`): each item's line, and a SETEX of its answer under
   * "<batch>_<j>". `answer` is `solution` of the item's line.
   */
  method GenItems(batch: BatchDraw, answer: ItemDraw -> String) returns (text: String, writes: seq<SetEx>)
    requires WellDrawn(batch)
    ensures text == ItemsText(batch.items)
    ensures writes == ItemWrites(batch.name, batch.items, answer)
  {
    var batchName, batchSize := batch.name, batch.size;
    text, writes := [], [];
    var j := 0;
    while j <= batchSize
      invariant 0 <= j <= batchSize + 1
      invariant text == ItemsText(batch.items[..j])
      invariant writes == ItemWrites(batchName, batch.items[..j], answer)
    {
      var item := batch.items[j];
      var thisCase := CaseLine(Item(item));
      ItemsTextSnoc(batch.items, j);
      ItemWritesSnoc(batchName, batch.items, j, answer);
      text := text + thisCase + "\n";
      writes := writes + [SetEx(Key(batchName, j), TTL, answer(item), item.stored)];
      j := j + 1;
    }
    assert batch.items[..j] == batch.items;
  }

  /** One more batch adds its text and its writes. */
  lemma BatchesSnoc(bs: seq<BatchDraw>, p: nat, answer: ItemDraw -> String)
    requires p < |bs|
    ensures InputText(bs[..p + 1]) == InputText(bs[..p]) + BatchText(bs[p])
    ensures AllWrites(bs[..p + 1], answer) == AllWrites(bs[..p], answer) + ItemWrites(bs[p].name, bs[p].items, answer)
  {
    assert bs[..p + 1][..p] == bs[..p];
  }

  /** One more item adds its line. */
  lemma ItemsTextSnoc(items: seq<ItemDraw>, j: nat)
    requires j < |items|
    ensures ItemsText(items[..j + 1]) == ItemsText(items[..j]) + CaseLine(Item(items[j])) + "\n"
  {
    assert items[..j + 1][..j] == items[..j];
  }

  /** One more item adds its write. */
  lemma ItemWritesSnoc(name: String, items: seq<ItemDraw>, j: nat, answer: ItemDraw -> String)
    requires j < |items|
    ensures ItemWrites(name, items[..j + 1], answer)
      == ItemWrites(name, items[..j], answer) + [SetEx(Key(name, j), TTL, answer(items[j]), items[j].stored)]
  {
    assert items[..j + 1][..j] == items[..j];
  }

  /** One more line adds that line and its '\n'. */
  lemma LinesSnoc(ls: seq<String>, l: String)
    ensures Lines(ls + [l]) == Lines(ls) + l + "\n"
  {
    assert (ls + [l])[..|ls|] == ls;
  }

  /** Splitting the text at '\n' gives back its lines, then the empty piece after the last '\n'. */
  lemma {:induction false} LinesSplit(ls: seq<String>)
    requires forall i :: 0 <= i < |ls| ==> '\n' !in ls[i]
    ensures Split(Lines(ls), '\n') == ls + [""]
  {
    LinesJoin(ls);
    SplitJoin(ls + [""], '\n');
  }

  /** The text is the join at '\n' of its lines and a final empty piece. */
  lemma {:induction false} LinesJoin(ls: seq<String>)
    ensures Lines(ls) == Join(ls + [""], '\n')
  {
    if |ls| > 0 {
      var init, l := ls[..|ls| - 1], ls[|ls| - 1];
      LinesJoin(init);
      JoinSnoc(init, l);
      assert init + [l] == ls;
      assert init + [l] + [""] == init + ([l] + [""]);
    }
  }

  /** Joining with one more piece at the end. */
  lemma {:induction false} JoinSnoc(ps: seq<String>, l: String)
    ensures Join(ps + [l] + [""], '\n') == Join(ps + [""], '\n') + l + "\n"
  {
    if |ps| == 0 {
      assert ps + [l] + [""] == [l, ""];
      assert [l, ""][1..] == [""];
    } else {
      assert (ps + [l] + [""])[1..] == ps[1..] + [l] + [""];
      assert (ps + [""])[1..] == ps[1..] + [""];
      JoinSnoc(ps[1..], l);
    }
  }

  /** No line break in any field of the draw. */
  predicate SingleLine(d: ItemDraw)
  {
    '\n' !in d.apiKey && '\n' !in d.a && '\n' !in d.b
  }

  /** The text of two runs of lines is the text of the first, then of the second. */
  lemma {:induction false} LinesAppend(x: seq<String>, y: seq<String>)
    ensures Lines(x + y) == Lines(x) + Lines(y)
  {
    if |y| > 0 {
      var n := |y| - 1;
      assert (x + y)[..|x + y| - 1] == x + y[..n];
      LinesAppend(x, y[..n]);
    } else {
      assert x + y == x;
    }
  }

  /** The item loop appends exactly the item lines, each ended by '\n'. */
  lemma {:induction false} ItemsTextLines(items: seq<ItemDraw>)
    ensures ItemsText(items) == Lines(ItemLines(items))
  {
    if |items| > 0 {
      var n := |items| - 1;
      var ls, l := ItemLines(items[..n]), CaseLine(Item(items[n]));
      ItemsTextLines(items[..n]);
      ItemLinesSnoc(items);
      LinesSnoc(ls, l);
    }
  }

  /** The lines of all items are the lines of all but the last, then the last one's. */
  lemma ItemLinesSnoc(items: seq<ItemDraw>)
    requires |items| > 0
    ensures ItemLines(items) == ItemLines(items[..|items| - 1]) + [CaseLine(Item(items[|items| - 1]))]
  {
    var n := |items| - 1;
    var r := ItemLines(items[..n]) + [CaseLine(Item(items[n]))];
    forall k | 0 <= k < |items|
      ensures ItemLines(items)[k] == r[k]
    {
      if k < n {
        assert items[..n][k] == items[k];
      }
    }
  }

  /** A batch's text is its lines, each ended by '\n'. */
  lemma BatchTextLines(b: BatchDraw)
    ensures BatchText(b) == Lines(BatchLines(b))
  {
    var h := HeaderLine(b);
    LinesAppend([h], ItemLines(b.items));
    ItemsTextLines(b.items);
    LinesSingle(h);
  }

  /** One line is its text and '\n'. */
  lemma LinesSingle(l: String)
    ensures Lines([l]) == l + "\n"
  {
    assert [l][..0] == [];
  }

  /** The generated text is the lines of all batches, each ended by '\n'. */
  lemma {:induction false} InputTextLines(bs: seq<BatchDraw>)
    ensures InputText(bs) == Lines(AllLines(bs))
  {
    if |bs| > 0 {
      var n := |bs| - 1;
      InputTextLines(bs[..n]);
      BatchTextLines(bs[n]);
      LinesAppend(AllLines(bs[..n]), BatchLines(bs[n]));
    }
  }

  /** No line break in the name of a batch or in any field of its items. */
  predicate BatchSingleLine(b: BatchDraw)
  {
    '\n' !in b.name && forall k :: 0 <= k < |b.items| ==> SingleLine(b.items[k])
  }

  /** Each line of a batch is free of line breaks when its draws are. */
  lemma BatchLinesSingle(b: BatchDraw)
    requires BatchSingleLine(b)
    ensures forall i :: 0 <= i < |BatchLines(b)| ==> '\n' !in BatchLines(b)[i]
  {
    var ls := BatchLines(b);
    HeaderSingle(b);
    ItemLinesSingle(b.items);
    forall i | 0 <= i < |ls|
      ensures '\n' !in ls[i]
    {
      if i > 0 {
        assert ls[i] == ItemLines(b.items)[i - 1];
      }
    }
  }

  /** The header line holds the name and digits only. */
  lemma HeaderSingle(b: BatchDraw)
    requires '\n' !in b.name
    ensures '\n' !in HeaderLine(b)
  {
    assert IsDigits(Itoa(b.size));
  }

  /** The item lines of single-line draws are free of line breaks. */
  lemma ItemLinesSingle(items: seq<ItemDraw>)
    requires forall k :: 0 <= k < |items| ==> SingleLine(items[k])
    ensures forall k :: 0 <= k < |items| ==> '\n' !in ItemLines(items)[k]
  {
    forall k | 0 <= k < |items|
      ensures '\n' !in ItemLines(items)[k]
    {
      CaseLineSingle(items[k]);
    }
  }

  /** An item's line holds no line break when its draws hold none. */
  lemma CaseLineSingle(d: ItemDraw)
    requires SingleLine(d)
    ensures '\n' !in CaseLine(Item(d))
  {
    assert '\n' !in TestType(d.typeDraw);
  }

  /** Each line of the generated text is free of line breaks when the draws are. */
  lemma {:induction false} AllLinesSingle(bs: seq<BatchDraw>)
    requires forall p :: 0 <= p < |bs| ==> BatchSingleLine(bs[p])
    ensures forall i :: 0 <= i < |AllLines(bs)| ==> '\n' !in AllLines(bs)[i]
  {
    if |bs| > 0 {
      var n := |bs| - 1;
      AllLinesSingle(bs[..n]);
      BatchLinesSingle(bs[n]);
      var x, y := AllLines(bs[..n]), BatchLines(bs[n]);
      assert AllLines(bs) == x + y;
      forall i | 0 <= i < |x + y|
        ensures '\n' !in (x + y)[i]
      {
        if i >= |x| {
          assert (x + y)[i] == y[i - |x|];
        }
      }
    }
  }

  /** A batch's text: the header line, then one line per item. */
  lemma BatchShape(b: BatchDraw)
    requires BatchSingleLine(b)
    ensures Split(BatchText(b), '\n') == [HeaderLine(b)] + ItemLines(b.items) + [""]
  {
    BatchLinesSingle(b);
    BatchTextLines(b);
    LinesSplit(BatchLines(b));
  }

  /**
   * The generated text, split at '\n': every batch's header and item lines,
   * batch after batch, then the empty piece after the final '\n'.
   */
  lemma InputShape(bs: seq<BatchDraw>)
    requires forall p :: 0 <= p < |bs| ==> BatchSingleLine(bs[p])
    ensures Split(InputText(bs), '\n') == AllLines(bs) + [""]
  {
    AllLinesSingle(bs);
    InputTextLines(bs);
    LinesSplit(AllLines(bs));
  }

  /**
   * The header of a batch announces `size` items, but the loop
   * `for j := 0; j <= batchSize; j++` writes `size + 1` of them.
   */
  lemma HeaderAnnounces(b: BatchDraw)
    requires WellDrawn(b) && ' ' !in b.name
    ensures Split(HeaderLine(b), ' ') == [b.name, Itoa(b.size)]
    ensures DecimalValue(Itoa(b.size)) == b.size
    ensures |ItemLines(b.items)| == b.size + 1
  {
    assert ' ' !in Itoa(b.size);
    SplitJoin([b.name, Itoa(b.size)], ' ');
    DecimalValueItoa(b.size);
  }

  /**
   * A batch issues one write per item, in item order: item `k` is written
   * under "<name>_<k>" with its answer, whether or not earlier writes
   * failed.
   */
  lemma {:induction false} ItemWritesAt(name: String, items: seq<ItemDraw>, answer: ItemDraw -> String)
    ensures |ItemWrites(name, items, answer)| == |items|
    ensures forall k :: 0 <= k < |items| ==>
      ItemWrites(name, items, answer)[k]
        == SetEx(Key(name, k), TTL, answer(items[k]), items[k].stored)
  {
    if |items| > 0 {
      var n := |items| - 1;
      var init := items[..n];
      ItemWritesAt(name, init, answer);
      var ws := ItemWrites(name, items, answer);
      forall k | 0 <= k < |items|
        ensures ws[k] == SetEx(Key(name, k), TTL, answer(items[k]), items[k].stored)
      {
        if k < n {
          assert init[k] == items[k];
        }
      }
    }
  }

  /** After a batch's writes, each stored item's record holds its answer. */
  lemma BatchStored(store: map<String, String>, name: String, items: seq<ItemDraw>, answer: ItemDraw -> String, k: nat)
    requires k < |items| && items[k].stored
    ensures Key(name, k) in Apply(store, ItemWrites(name, items, answer))
    ensures Apply(store, ItemWrites(name, items, answer))[Key(name, k)]
      == answer(items[k])
  {
    var ws := ItemWrites(name, items, answer);
    ItemWritesAt(name, items, answer);
    forall j | k < j < |ws| && ws[j].ok
      ensures ws[j].key != ws[k].key
    {
      if ws[j].key == ws[k].key {
        KeyInjective(name, j, name, k);
      }
    }
    ApplyLast(store, ws, k);
  }

  /** A batch's writes leave alone every key that is not one of its own. */
  lemma BatchUntouched(store: map<String, String>, name: String, items: seq<ItemDraw>, answer: ItemDraw -> String, key: String)
    requires forall k :: 0 <= k < |items| ==> Key(name, k) != key
    ensures key in Apply(store, ItemWrites(name, items, answer)) <==> key in store
    ensures key in store ==> Apply(store, ItemWrites(name, items, answer))[key] == store[key]
  {
    ItemWritesAt(name, items, answer);
    ApplyOther(store, ItemWrites(name, items, answer), key);
  }

  /** Batch names are UUIDs: no two batches share one. */
  predicate DistinctNames(bs: seq<BatchDraw>)
  {
    forall p, q :: 0 <= p < q < |bs| ==> bs[p].name != bs[q].name
  }

  /**
   * After all writes, the record of item `k` of batch `p` holds that item's
   * answer, when its write succeeded.
   */
  lemma {:induction false} Stored(store: map<String, String>, bs: seq<BatchDraw>, answer: ItemDraw -> String, p: nat, k: nat)
    requires DistinctNames(bs)
    requires p < |bs| && k < |bs[p].items| && bs[p].items[k].stored
    ensures Key(bs[p].name, k) in Apply(store, AllWrites(bs, answer))
    ensures Apply(store, AllWrites(bs, answer))[Key(bs[p].name, k)]
      == answer(bs[p].items[k])
  {
    var n := |bs| - 1;
    var init, last := bs[..n], bs[n];
    var key := Key(bs[p].name, k);
    ApplyAppend(store, AllWrites(init, answer), ItemWrites(last.name, last.items, answer));
    var mid := Apply(store, AllWrites(init, answer));
    if p == n {
      BatchStored(mid, last.name, last.items, answer, k);
    } else {
      assert init[p] == bs[p];
      Stored(store, init, answer, p, k);
      forall j | 0 <= j < |last.items|
        ensures Key(last.name, j) != key
      {
        if Key(last.name, j) == key {
          KeyInjective(last.name, j, bs[p].name, k);
        }
      }
      BatchUntouched(mid, last.name, last.items, answer, key);
    }
  }

  /**
   * The stored answer of a generated item is what its work item calls for:
   * "invalid" for a key the store does not hold, the named transform of
   * its two strings for a valid key.
   */
  lemma GeneratedAnswer(d: ItemDraw, lookup: String -> BoolReply, leq: (char, char) -> bool)
    requires ' ' !in d.apiKey && ' ' !in d.a && ' ' !in d.b
    ensures Solution(CaseLine(Item(d)), lookup, leq) == Expected(Item(d), lookup, leq)
    ensures 0 <= d.typeDraw < 4 && lookup(d.apiKey) == Bool(true) ==>
      exists t :: Name(t) == TestType(d.typeDraw) && Solution(CaseLine(Item(d)), lookup, leq) == Run(t, d.a, d.b, leq)
  {
    assert ' ' !in TestType(d.typeDraw);
    SolutionRoundTrip(Item(d), lookup, leq);
    if 0 <= d.typeDraw < 4 && lookup(d.apiKey) == Bool(true) {
      var t := ParseTransform(TestType(d.typeDraw)).value;
      assert Name(t) == TestType(d.typeDraw);
    }
  }

  /** The validator's view of a store: a record's text, or nil. */
  function StoreGet(store: map<String, String>): String -> GetReply
  {
    key => if key in store then Found(store[key]) else Nil
  }

  /** The answers of a batch, one per item. */
  function Answers(b: BatchDraw, answer: ItemDraw -> String): (ans: seq<String>)
    ensures |ans| == |b.items|
  {
    seq(|b.items|, k requires 0 <= k < |b.items| => answer(b.items[k]))
  }

  /**
   * Generation and validation agree: once every write of batch `p`
   * succeeded, submitting that batch's answers, one per line, is accepted.
   */
  lemma AnswersAccepted(store: map<String, String>, bs: seq<BatchDraw>, lookup: String -> BoolReply, leq: (char, char) -> bool, p: nat)
    requires DistinctNames(bs)
    requires p < |bs|
    requires forall k :: 0 <= k < |bs[p].items| ==> bs[p].items[k].stored && SingleLine(bs[p].items[k])
    ensures var answer := Answerer(lookup, leq);
      Accepted(Validate(bs[p].name, Lines(Answers(bs[p], answer)), StoreGet(Apply(store, AllWrites(bs, answer)))))
  {
    var b := bs[p];
    var answer := Answerer(lookup, leq);
    var ans := Answers(b, answer);
    var get := StoreGet(Apply(store, AllWrites(bs, answer)));
    AnswersSingleLine(b, lookup, leq);
    LinesSplit(ans);
    AnswersStored(store, bs, answer, p);
    var lines := ans + [""];
    forall j | 0 <= j < |lines| && lines[j] != ""
      ensures get(Key(b.name, j)) == Found(lines[j])
    {
      assert j < |ans|;
    }
    Acceptance(b.name, Lines(ans), get);
  }

  /** The answers to single-line items are single lines. */
  lemma AnswersSingleLine(b: BatchDraw, lookup: String -> BoolReply, leq: (char, char) -> bool)
    requires forall k :: 0 <= k < |b.items| ==> SingleLine(b.items[k])
    ensures var ans := Answers(b, Answerer(lookup, leq));
      forall k :: 0 <= k < |ans| ==> '\n' !in ans[k]
  {
    var ans := Answers(b, Answerer(lookup, leq));
    forall k | 0 <= k < |ans|
      ensures '\n' !in ans[k]
    {
      CaseLineSingle(b.items[k]);
      SolutionSingleLine(CaseLine(Item(b.items[k])), lookup, leq);
    }
  }

  /** After all batches are written, the store holds every stored item's answer under its key. */
  lemma AnswersStored(store: map<String, String>, bs: seq<BatchDraw>, answer: ItemDraw -> String, p: nat)
    requires DistinctNames(bs)
    requires p < |bs|
    requires forall k :: 0 <= k < |bs[p].items| ==> bs[p].items[k].stored
    ensures var ans := Answers(bs[p], answer);
      forall k :: 0 <= k < |ans| ==> StoreGet(Apply(store, AllWrites(bs, answer)))(Key(bs[p].name, k)) == Found(ans[k])
  {
    forall k | 0 <= k < |bs[p].items|
      ensures StoreGet(Apply(store, AllWrites(bs, answer)))(Key(bs[p].name, k)) == Found(answer(bs[p].items[k]))
    {
      Stored(store, bs, answer, p, k);
    }
  }
}
