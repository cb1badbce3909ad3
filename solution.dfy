/**
 * Solver: `solution` (main.go:387-425), the reference answer for one work
 * item `"<apiKey> <function> <a> <b>"`, and `genTestType` (main.go:368-384),
 * which names the transform of a generated item.
 *
 * `solution` asks the key-value store whether the API key is valid
 * (`redis.Bool` of a GET). That reply is a parameter `lookup`; the collation
 * order `unionSort` uses is a parameter `leq`.
 */
module Solver {
  import opened Runes
  import opened Text
  import Dedup
  import Intersect
  import Unions
  import Mangling

  datatype Option<T> = None | Some(value: T)

  /** The four transforms a work item can name (main.go:22-27). */
  datatype Transform = Union | Intersection | UnionSort | Mangle

  /** The name a work item uses for each transform. */
  function Name(t: Transform): String
  {
    match t
    case Union => "union"
    case Intersection => "intersection"
    case UnionSort => "unionsort"
    case Mangle => "mangle"
  }

  /** The `switch function` of `solution`: which transform a name selects, if any. */
  function ParseTransform(fn: String): (t: Option<Transform>)
    ensures t.Some? ==> Name(t.value) == fn
  {
    if fn == "union" then Some(Union)
    else if fn == "intersection" then Some(Intersection)
    else if fn == "unionsort" then Some(UnionSort)
    else if fn == "mangle" then Some(Mangle)
    else None
  }

  /** Every transform is selected by its own name and by no other. */
  lemma ParseName(t: Transform, fn: String)
    ensures ParseTransform(Name(t)) == Some(t)
    ensures ParseTransform(fn) == Some(t) <==> fn == Name(t)
  {
  }

  /** What the selected transform returns. */
  function Run(t: Transform, a: String, b: String, leq: (char, char) -> bool): String
  {
    match t
    case Union => Unions.Union(a, b)
    case Intersection => Intersect.Intersected(a, b)
    case UnionSort => Unions.SortedUnion(a, b, leq)
    case Mangle => Mangling.Mangled(a, b)
  }

  /**
   * Every transform returns each of its runes once, and only runes of its
   * inputs; this holds for any order `leq`.
   */
  lemma RunRunes(t: Transform, a: String, b: String, leq: (char, char) -> bool)
    ensures NoDup(Run(t, a, b, leq))
    ensures Elems(Run(t, a, b, leq)) <= Elems(a) + Elems(b)
  {
    match t
    case Union =>
    case Intersection =>
      Intersect.IntersectedSpec(a, b);
    case UnionSort =>
      Unions.SortedUnionElems(a, b, leq);
    case Mangle =>
      var s := Mangling.Interleaved(a, b);
      Mangling.InterleavedRunes(a, b);
      Dedup.DeduplicatedSpec(s);
  }

  /** `genTestType`: the transform name for a draw `r` of `rand.Intn(4)`; any other draw gives "". */
  function TestType(r: int): (fn: String)
    ensures 0 <= r < 4 <==> ParseTransform(fn).Some?
    ensures !(0 <= r < 4) ==> fn == ""
  {
    if r == 0 then Name(Union)
    else if r == 1 then Name(Intersection)
    else if r == 2 then Name(UnionSort)
    else if r == 3 then Name(Mangle)
    else ""
  }

  /** Each transform is drawn by exactly one of the four draws. */
  lemma TestTypeCovers(t: Transform)
    ensures exists r :: 0 <= r < 4 && TestType(r) == Name(t)
    ensures forall r1, r2 :: 0 <= r1 < 4 && 0 <= r2 < 4 && TestType(r1) == TestType(r2) ==> r1 == r2
  {
    match t
    case Union => assert TestType(0) == Name(t);
    case Intersection => assert TestType(1) == Name(t);
    case UnionSort => assert TestType(2) == Name(t);
    case Mangle => assert TestType(3) == Name(t);
  }

  /**
   * What `redis.Bool` makes of the GET of the API key: a value read as a
   * boolean, `ErrNil` for a missing key, or any other error.
   */
  datatype BoolReply = Bool(value: bool) | ErrNil | ErrOther

  const Invalid: String := "invalid"
  const RedisError: String := "<< internal redis error getting data >>"

  function NotFourParts(thisCase: String): String
  {
    "<< error parsing data, not four parts: " + thisCase + " >>"
  }

  function UnexpectedFunction(fn: String): String
  {
    "<< unexpected function: " + fn + " >>"
  }

  /** `solution(thisCase)`. */
  function Solution(thisCase: String, lookup: String -> BoolReply, leq: (char, char) -> bool): String
  {
    var parts := Split(thisCase, ' ');
    if |parts| != 4 then NotFourParts(thisCase)
    else
      var apiKey, fn, a, b := parts[0], parts[1], parts[2], parts[3];
      match lookup(apiKey)
      case ErrOther => RedisError
      case ErrNil => Invalid
      case Bool(ok) =>
        if !ok then Invalid
        else match ParseTransform(fn)
          case Some(t) => Run(t, a, b, leq)
          case None => UnexpectedFunction(fn)
  }

  /** The four fields of a work item. */
  datatype WorkItem = WorkItem(apiKey: String, fn: String, a: String, b: String)

  /** `fmt.Sprintf("%s %s %s %s", apiKey, testType, a, b)`. */
  function CaseLine(w: WorkItem): String
  {
    w.apiKey + " " + w.fn + " " + w.a + " " + w.b
  }

  predicate SpaceFree(w: WorkItem)
  {
    ' ' !in w.apiKey && ' ' !in w.fn && ' ' !in w.a && ' ' !in w.b
  }

  /**
   * The answer a work item calls for, decided on its fields: a key the store
   * cannot answer for is an internal error, a missing or false key is
   * "invalid", and a valid key gets the named transform or, for an unknown
   * name, an error naming it.
   */
  function Expected(w: WorkItem, lookup: String -> BoolReply, leq: (char, char) -> bool): String
  {
    match lookup(w.apiKey)
    case ErrOther => RedisError
    case ErrNil => Invalid
    case Bool(ok) =>
      if !ok then Invalid
      else match ParseTransform(w.fn)
        case Some(t) => Run(t, w.a, w.b, leq)
        case None => UnexpectedFunction(w.fn)
  }

  /**
   * Parsing undoes rendering: `solution` of the rendered line of a work item
   * whose fields have no space is the answer that work item calls for.
   */
  lemma SolutionRoundTrip(w: WorkItem, lookup: String -> BoolReply, leq: (char, char) -> bool)
    requires SpaceFree(w)
    ensures Solution(CaseLine(w), lookup, leq) == Expected(w, lookup, leq)
  {
    var parts := [w.apiKey, w.fn, w.a, w.b];
    assert Join(parts, ' ') == CaseLine(w) by {
      assert parts[1..][1..][1..] == [w.b];
      assert parts[1..][1..] == [w.a, w.b];
      assert Join([w.a, w.b], ' ') == w.a + " " + w.b;
      assert Join([w.fn, w.a, w.b], ' ') == w.fn + " " + (w.a + " " + w.b);
      assert Join(parts, ' ') == w.apiKey + " " + (w.fn + " " + (w.a + " " + w.b));
    }
    SplitJoin(parts, ' ');
  }

  /** A line without exactly three spaces is reported as malformed, whatever the store says. */
  lemma SolutionMalformed(thisCase: String, lookup: String -> BoolReply, leq: (char, char) -> bool)
    requires multiset(thisCase)[' '] != 3
    ensures Solution(thisCase, lookup, leq) == NotFourParts(thisCase)
  {
    SplitCount(thisCase, ' ');
  }

  /**
   * A transform's answer is never one of the fixed replies: each of those
   * repeats a rune, and a transform's answer never does.
   */
  lemma AnswerIsNotMessage(t: Transform, a: String, b: String, leq: (char, char) -> bool, thisCase: String, fn: String)
    ensures Run(t, a, b, leq) != Invalid
    ensures Run(t, a, b, leq) != RedisError
    ensures Run(t, a, b, leq) != NotFourParts(thisCase)
    ensures Run(t, a, b, leq) != UnexpectedFunction(fn)
  {
    RunRunes(t, a, b, leq);
    var r := Run(t, a, b, leq);
    assert Invalid[0] == Invalid[5];
    assert RedisError[0] == RedisError[1];
    assert NotFourParts(thisCase)[0] == NotFourParts(thisCase)[1];
    assert UnexpectedFunction(fn)[0] == UnexpectedFunction(fn)[1];
  }

  /** An answer stays on one line: it has a line break only when its work item has one. */
  lemma SolutionSingleLine(thisCase: String, lookup: String -> BoolReply, leq: (char, char) -> bool)
    requires '\n' !in thisCase
    ensures '\n' !in Solution(thisCase, lookup, leq)
  {
    var parts := Split(thisCase, ' ');
    if |parts| == 4 {
      SplitRunes(thisCase, ' ');
      assert '\n' !in parts[1] && '\n' !in parts[2] && '\n' !in parts[3];
      RepliesSingleLine(thisCase, parts[1]);
      match ParseTransform(parts[1])
      case Some(t) => RunSingleLine(t, parts[2], parts[3], leq);
      case None =>
    } else {
      RepliesSingleLine(thisCase, thisCase);
    }
  }

  /** The fixed replies hold no line break beyond those of the text they quote. */
  lemma RepliesSingleLine(thisCase: String, fn: String)
    requires '\n' !in thisCase && '\n' !in fn
    ensures '\n' !in Invalid && '\n' !in RedisError
    ensures '\n' !in NotFourParts(thisCase) && '\n' !in UnexpectedFunction(fn)
  {
    assert '\n' !in RedisError by {
      assert forall i :: 0 <= i < |RedisError| ==> RedisError[i] != '\n';
    }
    assert '\n' !in NotFourParts(thisCase) by {
      var p := "<< error parsing data, not four parts: ";
      assert forall i :: 0 <= i < |p| ==> p[i] != '\n';
      assert NotFourParts(thisCase) == p + thisCase + " >>";
    }
    assert '\n' !in UnexpectedFunction(fn) by {
      var q := "<< unexpected function: ";
      assert forall i :: 0 <= i < |q| ==> q[i] != '\n';
      assert UnexpectedFunction(fn) == q + fn + " >>";
    }
  }

  /** A transform of two strings without line breaks has none. */
  lemma RunSingleLine(t: Transform, a: String, b: String, leq: (char, char) -> bool)
    requires '\n' !in a && '\n' !in b
    ensures '\n' !in Run(t, a, b, leq)
  {
    RunRunes(t, a, b, leq);
    assert '\n' !in Elems(a) + Elems(b);
  }

  /** A store that holds only the API key "k", set to true. */
  function OneKeyStore(apiKey: String): BoolReply
  {
    if apiKey == "k" then Bool(true) else ErrNil
  }

  /** A valid key and a known transform: the transform's answer. */
  lemma SolutionAnswerExample()
    ensures Solution("k union apple pie", OneKeyStore, Unions.CodePointOrder) == "aplei"
  {
    var w := WorkItem("k", "union", "apple", "pie");
    assert CaseLine(w) == "k union apple pie";
    SolutionRoundTrip(w, OneKeyStore, Unions.CodePointOrder);
    Unions.UnionExample();
  }

  /** A key the store does not hold: "invalid". */
  lemma SolutionInvalidExample()
    ensures Solution("u union apple pie", OneKeyStore, Unions.CodePointOrder) == Invalid
  {
    var w := WorkItem("u", "union", "apple", "pie");
    assert CaseLine(w) == "u union apple pie";
    assert OneKeyStore(w.apiKey) == ErrNil by {
      assert w.apiKey[0] != "k"[0];
    }
    SolutionRoundTrip(w, OneKeyStore, Unions.CodePointOrder);
  }

  /** An unknown transform name is reported by name. */
  lemma SolutionUnexpectedExample()
    ensures Solution("k reverse apple pie", OneKeyStore, Unions.CodePointOrder) == UnexpectedFunction("reverse")
  {
    var w := WorkItem("k", "reverse", "apple", "pie");
    assert CaseLine(w) == "k reverse apple pie";
    assert ParseTransform(w.fn) == None by {
      assert |w.fn| == 7 && w.fn[0] == 'r';
    }
    SolutionRoundTrip(w, OneKeyStore, Unions.CodePointOrder);
  }
}
