# interview_idea core, modelled in Dafny

interview_idea is a small Go web service for a programming exercise. It
generates batches of work items. Each work item is a line
`"<apiKey> <function> <a> <b>"`. For each item the service computes the
reference answer and stores it in Redis under `"<batch>_<index>"` with a
two-hour lifetime. The candidate later posts one answer per line, and the
service compares each line with the stored record.

This project models the core of `main.go`:

- the four string transforms `union`, `intersection`, `unionSort` and
  `mangle`, and the `deduplicate` primitive they share (modules `Dedup`,
  `Intersect`, `Unions`, `Mangling`, over the rune vocabulary of `Runes`);
- `solution`, which parses a work item, asks the store whether its API key
  is valid and runs the named transform, and `genTestType` (module `Solver`);
- `genInput`, which renders the batches and issues the SETEX writes of
  their answers (module `Generation`);
- the line-by-line check in `validateBatchHandler` and the response it
  writes (module `Validation`);
- the record keys and the effect of the writes on the store (module
  `Records`), and `strings.Split`, `%d` formatting and their inverses
  (module `Text`).

A Go string is modelled as the sequence of runes it decodes to. Where the
code uses byte offsets (`for i, r := range s` in `mangle`), each rune's
UTF-8 width comes from section 3 of RFC 3629.

The store is not part of the model. Its answers are parameters:
- `lookup` answers `redis.Bool(GET apiKey)`;
- `get` answers the validator's `GET`;
- the writes `genInput` issues are returned as values, each with its
  success flag, and `Records.Apply` gives the store they produce.

Every random draw of `genInput` is an input: the batch name, the size, and
each item's API key, transform draw and two strings. The collation order of
`unionSort` is a parameter `leq`. Properties that need it to be a total
order say so.

Loops in the source are methods proved against pure specification
functions. Each method has a loop invariant, and the properties are lemmas
about those functions. The methods are `Dedup.Deduplicate`,
`Intersect.Intersection`, `Unions.UnionSort`, `Mangling.Mangle` and its
inner loop `Mangling.PickRunes`, `Validation.ValidateBatch`, and
`Generation.GenInput` and its item loop `Generation.GenItems`.

Where the code and its documented intent differ, the model follows the code:

- `mangle` pairs runes by byte offset, not by rune index. For ASCII input
  the two agree (`Mangling.InterleavedAscii`). With multi-byte runes they
  differ (`Mangling.InterleavedByteOffsets`).
- The item loop of `genInput` runs `j := 0 .. batchSize` inclusive. So a
  batch whose header announces `n` items holds `n + 1` of them
  (`Generation.HeaderAnnounces`).
- `rand.Intn(MaxBatchSize)` draws the size from `0 .. MaxBatchSize - 1`.
  The model takes the size as an input and places no bound on it.
- A submission made only of blank lines is accepted, even for a batch that
  does not exist (`Validation.BlankAccepted`).
- An error after a mismatch line still gets status 200. The first write has
  already fixed the status (`Validation.ResponseCode`).

## Model

| member | source | states |
|---|---|---|
| Runes.RuneLen | main.go:472-473 | a rune's UTF-8 width is 1 to 4 bytes, and 1 exactly for code points below 0x80 |
| Text.Split | main.go:169 | `strings.Split` gives at least one piece, and no piece holds the separator |
| Text.JoinSplit | main.go:169 | joining the pieces with the separator gives back the input |
| Text.SplitJoin | main.go:389 | splitting the join of separator-free pieces gives back the pieces |
| Text.SplitCount | main.go:389-390 | the number of pieces is one more than the number of separators |
| Text.SplitRunes | main.go:389 | every rune of a piece comes from the input |
| Text.DecimalValueItoa | main.go:246 | `%d` rendering reads back as the same number |
| Text.ItoaInjective | main.go:174 | different numbers render differently |
| Records.KeyInjective | main.go:174 | two different (batch, index) pairs never share a record key `"<batch>_<index>"` |
| Records.ApplyOther | main.go:261 | a key that no successful SETEX names keeps its record, or stays absent |
| Records.ApplyLast | main.go:261 | the last successful SETEX to a key decides its record |
| Records.ApplyAppend | main.go:261 | applying two runs of writes is applying one run after the other |
| Dedup.Deduplicate | main.go:427-437 | the loop over the runes with the seen-set returns `Deduplicated(s)` |
| Dedup.DeduplicatedSpec | main.go:427-437 | the result has exactly the runes of the input, no rune twice, in order of first occurrence |
| Dedup.DeduplicatedUnique | main.go:427-437 | any string with those three properties is the result |
| Dedup.DeduplicatedNoDup | main.go:427-437 | a repeat-free string is returned unchanged |
| Dedup.DeduplicatedIdempotent | main.go:427-437 | deduplicating twice is deduplicating once |
| Dedup.DeduplicatedPrefix | main.go:427-437 | the result for a prefix is a prefix of the result |
| Dedup.DeduplicatedSnoc | main.go:430-434 | one more rune is appended exactly when it is new |
| Dedup.DeduplicatedApple | main_test.go:12 | `deduplicate("apple") == "aple"` |
| Dedup.DeduplicatedRepeated | main_test.go:13 | `deduplicate("eeeeeee") == "e"` |
| Dedup.DeduplicatedRepeatFree | main_test.go:14 | `deduplicate("NKíjé") == "NKíjé"`: distinct multi-byte runes are kept |
| Dedup.DeduplicatedSingle | main_test.go:15 | `deduplicate("a") == "a"` |
| Intersect.Intersection | main.go:439-449 | the nested loops, then `deduplicate`, return `Intersected(a, b)` |
| Intersect.MatchesSpec | main.go:442-446 | the inner loop appends copies of `runeA` only, and at least one exactly when `runeA` occurs in `b` |
| Intersect.CommonElems | main.go:440-447 | the buffer holds exactly the runes common to both strings |
| Intersect.DeduplicatedAppendCopies | main.go:442-448 | appending copies of one rune adds it at most once after deduplication |
| Intersect.IntersectedIsKeepIn | main.go:439-449 | the result is the deduplicated `a` filtered by membership in `b` |
| Intersect.KeepInElems | main.go:443 | filtering by `b` keeps exactly the runes that are also in `b` |
| Intersect.KeepInOrder | main.go:441 | filtering keeps the first-occurrence order of `a` |
| Intersect.IntersectedSpec | main.go:439-449 | the result has exactly the common runes, no rune twice, in the order of their first occurrence in `a` |
| Intersect.IntersectedUnique | main.go:439-449 | any string with those properties is the result |
| Intersect.IntersectedEmpty | src/interview/main_test.go:37-39 | an empty operand gives an empty intersection |
| Intersect.IntersectedApplePie | src/interview/main_test.go:33 | `intersection("apple", "pie") == "pe"` |
| Intersect.IntersectedRepeated | src/interview/main_test.go:34 | `intersection("eeeeeee", "e") == "e"` |
| Intersect.IntersectedDisjoint | src/interview/main_test.go:36 | `intersection("a", "b") == ""` |
| Intersect.IntersectedSelf | src/interview/main_test.go:35 | a repeat-free string intersected with itself is itself |
| Unions.Union | main.go:451-453 | the result has exactly the runes of both, no rune twice, in order of first occurrence in `a + b`, and starts with the deduplicated `a` |
| Unions.UnionEmpty | src/interview/main_test.go:61-63 | union with the empty string deduplicates the other operand |
| Unions.UnionExample | src/interview/main_test.go:57 | `union("apple", "pie") == "aplei"` |
| Unions.UnionRepeated | src/interview/main_test.go:58 | `union("eeeeeee", "e") == "e"` |
| Unions.UnionDisjoint | src/interview/main_test.go:60 | `union("a", "b") == "ab"` |
| Unions.InsertPermutes | main.go:464 | inserting one rune adds exactly that rune |
| Unions.InsertSorted | main.go:464 | inserting into a sorted sequence keeps it sorted, under a total order |
| Unions.SortPermutes | main.go:464 | sorting is a permutation, for any order |
| Unions.SortSpec | main.go:464 | under a total order the sorted sequence is sorted and a permutation |
| Unions.HeadIsLeast | main.go:464 | the head of a sorted sequence is below each of its runes |
| Unions.SortedUnique | main.go:464 | two sorted permutations of the same runes are equal, under a total order |
| Unions.SortIsAnySortedPermutation | main.go:464 | whichever sorting algorithm the collator uses, its result is `Sort` |
| Unions.UnionSort | main.go:455-466 | the two collecting loops, the sort and `deduplicate` return `SortedUnion(a, b, leq)` |
| Unions.SortedUnionElems | main.go:455-466 | for any order the result has exactly the runes of both, each once |
| Unions.SortedUnionSpec | main.go:455-466 | under a total order the result is strictly increasing |
| Unions.SortedUnionUnique | main.go:455-466 | the strictly increasing string of those runes is the result |
| Unions.SortedUnionCommutes | main.go:455-466 | the operands can be swapped |
| Unions.CodePointTotal | main.go:464 | code-point order, the order the examples use, is a total order |
| Unions.SortedUnionApplePie | src/interview/main_test.go:81 | `unionSort("apple", "pie") == "aeilp"` under code-point order |
| Unions.SortedUnionRepeated | src/interview/main_test.go:82 | `unionSort("eeeeeee", "e") == "e"` under code-point order |
| Unions.SortedUnionSwapped | src/interview/main_test.go:84 | `unionSort("b", "a") == "ab"` under code-point order |
| Mangling.Mangle | main.go:468-487 | the nested byte-offset loops, then `deduplicate`, return `Mangled(a, b)` |
| Mangling.PickRunes | main.go:473-483 | the inner loop over `b` for one rune of `a` appends exactly `Pick(i, runeA, b)` |
| Mangling.PickNone | main.go:473-476 | when no rune of `b` starts at byte offset `i`, nothing is appended |
| Mangling.PickAt | main.go:473-482 | when rune `m` of `b` starts at `i`, exactly one rune is appended: from `a` if `i` is even, from `b` if odd |
| Mangling.InterleavedRunes | main.go:472-485 | the buffer is no longer than the shorter of `a` and `b`, and holds only runes of `a` or `b` |
| Mangling.PickAtMostOne | main.go:473-483 | the inner loop appends at most one rune, `runeA` or a rune of `b` |
| Mangling.InterleavedSnocB | main.go:472-485 | one more rune of `b` adds at most one rune to the buffer, and none once `a` has ended before it |
| Mangling.InterleavedShorterThanB | main.go:472-485 | the buffer is no longer than `b`: each rune of `b` meets at most one rune of `a` |
| Mangling.InterleavedIgnoresTailOfA | main.go:472-485 | runes of `a` starting beyond the end of `b` contribute nothing |
| Mangling.PickIgnoresTail | main.go:473-483 | runes of `b` starting after offset `i` do not change what is picked at `i` |
| Mangling.InterleavedIgnoresTailOfB | main.go:472-485 | runes of `b` starting beyond the end of `a` contribute nothing |
| Mangling.Alternate | main.go:469 | the documented alternation by rune index has the shorter length |
| Mangling.InterleavedAscii | main.go:468-487 | on ASCII text, mangling takes even-index runes from `a` and odd-index runes from `b`, up to the shorter length |
| Mangling.InterleavedPrefixSelf | main.go:472-485 | every prefix of `s`, interleaved with `s`, comes back unchanged, so `s` with itself gives `s` before deduplication |
| Mangling.InterleavedByteOffsets | main.go:472-474 | with a two-byte rune, byte offsets and rune indices pick different runes |
| Mangling.MangledExample | src/interview/main_test.go:109 | `mangle("abcd", "wxyz") == "axcz"` |
| Mangling.MangledSelf | src/interview/main_test.go:106-107 | a repeat-free string mangled with itself is itself |
| Mangling.MangledRepeatingExample | src/interview/main_test.go:105 | `mangle("aaaaaa", "bbbbbb") == "ab"` |
| Mangling.MangledReversedExample | src/interview/main_test.go:108 | `mangle("abcdef", "fedcba") == "aec"` |
| Solver.ParseTransform | main.go:412-421 | a recognised function name is the name of the transform it selects |
| Solver.ParseName | main.go:22-27 | each transform is selected by its own name and by no other |
| Solver.RunRunes | main.go:412-421 | every transform returns each rune once, and only runes of its inputs |
| Solver.TestType | main.go:368-384 | draws 0 to 3 give a recognised transform name, and every other draw gives "" |
| Solver.TestTypeCovers | main.go:370-380 | each transform is drawn by exactly one of the four draws |
| Solver.SolutionRoundTrip | main.go:387-425 | `solution` of a rendered work item with space-free fields is the answer its fields call for: a store error, "invalid", the transform, or the unknown-function error |
| Solver.SolutionMalformed | main.go:389-393 | a line without exactly three spaces is reported as not four parts, whatever the store says |
| Solver.AnswerIsNotMessage | main.go:392-424 | a transform's answer is never one of the fixed replies |
| Solver.SolutionSingleLine | main.go:387-425 | an answer holds no line break unless its work item does |
| Solver.RunSingleLine | main.go:412-421 | a transform of two strings without line breaks has none |
| Solver.SolutionAnswerExample | main.go:412-414 | a valid key with `union` gets the union |
| Solver.SolutionInvalidExample | main.go:402-410 | a key the store does not hold gets "invalid" |
| Solver.SolutionUnexpectedExample | main.go:423-424 | an unknown function is reported by name |
| Validation.HandleErr | main.go:501-504 | `handleErr` writes the message and a line break; the status it asks for counts only before the first write |
| Validation.CheckBlocked | main.go:176-192 | a line whose record cannot be used stops the check with no further mismatch |
| Validation.ValidateBatch | main.go:168-201 | the loop writes `ResponseBody` and answers with `ResponseCode` of the scan `Validate` |
| Validation.CheckStop | main.go:176-192 | the check stops with the error of the first nonblank line whose record is unusable, or completes |
| Validation.MismatchesSound | main.go:193-196 | every reported mismatch is a nonblank line whose record is text that differs from it |
| Validation.MismatchesOrdered | main.go:170 | mismatches are reported in line order |
| Validation.MismatchesComplete | main.go:193-196 | every differing line before the stopping point is reported |
| Validation.Acceptance | main.go:168-201 | a submission is accepted exactly when every nonblank line `j` equals the text record `"<batch>_<j>"` |
| Validation.BlankAccepted | main.go:171-173 | a body of line breaks only is accepted without a lookup |
| Validation.ResponseOk | main.go:199-201 | the response is "ok" exactly when the submission is accepted, and then the status is 200 |
| Validation.MismatchTextStart | main.go:195 | the response begins with the first mismatch line |
| Validation.ExampleKeys | main.go:174 | `"%s_%d"` renders ("b", 0), ("b", 1) and ("c", 0) as "b_0", "b_1" and "c_0" |
| Validation.AcceptedExample | main.go:168-201 | matching lines are accepted |
| Validation.TrailingLineBreakExample | main.go:171-173 | a final line break is accepted |
| Validation.BlankLineKeepsNumberExample | main.go:170-174 | a blank line still counts toward the record index |
| Validation.MismatchExample | main.go:193-196 | a differing line is reported with its index, its text and the record |
| Validation.UnknownBatchExample | main.go:183-186 | a missing record stops the check with its key |
| Generation.LettersSeparatorFree | main.go:489-498 | a drawn string holds no space and no line break |
| Generation.GenInput | main.go:235-269 | without a connection: "<< error >>" and no writes; otherwise the text of all batches and the SETEX of every item's `solution`, in order |
| Generation.GenItems | main.go:248-265 | the item loop appends each item's line and a SETEX of its answer under `"<batch>_<j>"` |
| Generation.LinesSplit | main.go:169 | splitting line-ended text at '\n' gives the lines and a final empty piece |
| Generation.LinesAppend | main.go:246-258 | the text of two runs of lines is the text of one, then the other |
| Generation.ItemsTextLines | main.go:253-258 | the item loop appends exactly the item lines, each ended by '\n' |
| Generation.BatchTextLines | main.go:246-258 | a batch's text is its header line and item lines, each ended by '\n' |
| Generation.InputTextLines | main.go:243-266 | the generated text is the lines of all batches in order |
| Generation.AllLinesSingle | main.go:243-266 | no generated line holds a line break when the draws do not |
| Generation.BatchShape | main.go:246-258 | a batch's text, split at '\n', is its header, then one line per item |
| Generation.InputShape | main.go:243-266 | the generated text, split at '\n', is every batch's lines in order |
| Generation.HeaderAnnounces | main.go:245-248 | the header parses back to the name and the size, but the batch holds size + 1 items |
| Generation.ItemWritesAt | main.go:261 | a batch issues one SETEX per item: item `k` under `"<batch>_<k>"`, with a two-hour lifetime and its answer |
| Generation.BatchStored | main.go:261 | after a batch's writes, each successfully written item's record holds its answer |
| Generation.BatchUntouched | main.go:261 | a batch's writes leave every other key alone |
| Generation.Stored | main.go:243-266 | with distinct batch names, after all writes each successfully written item's record holds its answer |
| Generation.GeneratedAnswer | main.go:249-254 | a generated item's stored answer is what its fields call for, and a valid key with draw 0 to 3 gets the drawn transform |
| Generation.AnswersAccepted | main.go:168-201 | after all of a batch's writes succeed, posting its answers one per line is accepted by the validator |

## Left out

- The HTTP layer is not modelled: routing, `rootHandler`, `generateHandler`, `validateAPIKeyHandler`, query parameters and the HTML page. They only move text in and out of the core.
- `validateBatchHandler` before its loop is not modelled: the missing batch segment, unreadable body and failed connection each end with a fixed error. Only the loop over the lines and its response are modelled.
- Flags and `init` are not modelled. `MaxBatchSize`, `RandStringLen` and the others appear only as the shape of the inputs.
- The Redis connection is not modelled: network I/O, `redis.Dial`, timeouts and key expiry. Replies are parameters, and writes are returned values. The two-hour lifetime is recorded on each write but never expires.
- `solution` does not check the result of `redis.Dial`. With no connection it would dereference a nil connection, and the model does not capture that.
- `setAPIKeyPool`, `genAPIKey`, the API key pool and its leasing (main.go:273-366) are not modelled. API keys are inputs, and the store's view of them is `lookup`.
- `genBatchName`, `genRandString` and `rand.Intn` are not modelled as random. Their values are inputs. Only `genRandString`'s alphabet is modelled, by `Generation.Letter`.
- The `ShowSolutions` variant of the item line ("<item> # <answer>") is not modelled, because it is off by default.
- The American-English collation tables are not modelled. `unionSort` takes an abstract order `leq`. The library's in-place sort is modelled as insertion sort, and `Unions.SortIsAnySortedPermutation` shows that any sorting algorithm gives the same result under a total order.
- Invalid UTF-8 is not modelled. Strings are sequences of Unicode scalar values.
- Logging is not modelled.
- Generation.GenInput: the loop calls `solution` directly. The model computes the same answer through `Generation.Answerer`, passed to the item loop as a function.
- Unions.SortedUnionApplePie: this example and the other `unionSort` examples use code-point order, not the collator's. The test row "NKíjé" → "éíjKN" is left out, because it depends on the American-English collation tables.
