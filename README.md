# Ropes, modelled in Dafny

A model of the core of the Java "Ropes" library (version 1.0.5, package
`org.ahmadsoft.ropes`). A rope is an immutable character sequence held as
a tree. It has three kinds of node:

- a flat rope over a character sequence;
- a substring rope, which is a window on a flat rope's sequence;
- a concatenation rope with two children, a cached byte depth and a
  cached length.

The model covers these parts of the library:

- **Nodes.** Their `charAt`, `subSequence`, `write` and `rebalance`.
- **Iterators.** The flat rope's iterator and the concatenation iterator,
  which walks the tree with an explicit stack. Also the character-sequence
  adapter that regular-expression matching reads through.
- **RopeUtilities.** Concatenation with its short-leaf merges, automatic
  rebalancing, and the Fibonacci-slot rebalancing algorithm.
- **AbstractRope.** The operations every rope inherits: the `append`
  overloads, `delete`, `insert`, `hashCode`, `equals`, `indexOf`,
  `compareTo` and `toString`.

Ropes are Dafny datatype values, so every operation returns a new rope and
leaves its argument untouched, as the library promises. Java exceptions
become `Result`/`Outcome` failures. A `null` produced by `rebalance`
becomes the failure `NullRope`. The ghost function `Ropes.Str` gives the
text a rope stands for, and most properties are stated against it. The
iterators are classes whose fields change as in the source. The
rebalancing loop is a method over an `array`, proved equal to a
functional specification whose properties are proved as lemmas.

Files (one module each):

| file | contents |
|---|---|
| `ropes.dfy` | the rope datatype, its text, well-formedness, the traversal stack |
| `flat_rope.dfy` | `FlatRope`: `subSequence`, `write`, the iterator |
| `substring_rope.dfy` | `SubstringRope`: constructor and `subSequence` |
| `rope_utilities.dfy` | `RopeUtilities`: `concatenate`, `autoRebalance`, `rebalance`, `isBalanced` |
| `rebalance_proofs.dfy` | content preservation and slot invariants of `rebalance` |
| `concatenation_rope.dfy` | `ConcatenationRope`: `charAt`, `subSequence`, `rebalance`, `write` |
| `concat_iterator.dfy` | `ConcatenationRopeIteratorImpl` |
| `rope_iterators.dfy` | `iterator(start)` of every node kind, the regular-expression adapter |
| `rope_edits.dfy` | `append`, `delete`, `insert` |
| `rope_queries.dfy` | `hashCode`, `equals`, `indexOf`, `compareTo` |

## Model

Source paths are relative to the library's source tree.

| member | source | states |
|---|---|---|
| Ropes.ToByte | ropes-1.0.5/src/org/ahmadsoft/ropes/impl/ConcatenationRope.java:52 | the `(byte)` cast yields a value in [-128, 127], equal to its argument when that already fits |
| Ropes.Str | ropes-1.0.5/src/org/ahmadsoft/ropes/impl/ConcatenationRope.java:99-102 | the text of a well-formed rope has exactly `length()` characters |
| Ropes.MkConcat | ropes-1.0.5/src/org/ahmadsoft/ropes/impl/ConcatenationRope.java:49-54 | the new node has the two children, is well formed when they are, and stands for the left text followed by the right text; its depth fits a byte; it has no empty unit iff neither child has one |
| Ropes.DepthIsHeight | ropes-1.0.5/src/org/ahmadsoft/ropes/impl/ConcatenationRope.java:52 | while the tree's real height is at most 127, the cached byte depth equals that height |
| Ropes.ExpandTop | ropes-1.0.5/src/org/ahmadsoft/ropes/impl/RopeUtilities.java:53-57 | replacing a concatenation on top of the traversal stack by its two children keeps the stack's text, keeps it free of empty units, and strictly shrinks the stack |
| Ropes.Writer.constructor | ropes-1.0.5/src/org/ahmadsoft/ropes/impl/AbstractRope.java:145 | a new writer holds no characters |
| FlatRopes.FlatSubSequence | ropes-1.0.5/src/org/ahmadsoft/ropes/impl/FlatRope.java:87-94 | succeeds iff 0 <= start <= end <= length, otherwise fails with IndexOutOfBounds. The result stands for exactly that slice. A range shorter than 8, or one cut from a `String`, gives a flat copy. Any other range gives a substring rope over the same sequence |
| FlatRopes.FlatWrite | ropes-1.0.5/src/org/ahmadsoft/ropes/impl/FlatRope.java:115-126 | passes iff offset >= 0 and offset + length <= length(), and for a `String` also length >= 0. On failure nothing is written. On success exactly the requested range is written, and nothing when length <= 0 |
| FlatRopes.FlatWriteAll | ropes-1.0.5/src/org/ahmadsoft/ropes/impl/FlatRope.java:110-113 | appends the whole sequence to the writer |
| FlatRopes.FlatIterator.constructor | ropes-1.0.5/src/org/ahmadsoft/ropes/impl/FlatRope.java:63-64 | the cursor starts at `start` |
| FlatRopes.FlatIterator.HasNext | ropes-1.0.5/src/org/ahmadsoft/ropes/impl/FlatRope.java:66-68 | true iff the cursor is before the end of the sequence |
| FlatRopes.FlatIterator.Next | ropes-1.0.5/src/org/ahmadsoft/ropes/impl/FlatRope.java:71-73 | returns the character under the cursor and advances by one; past the end it fails with IndexOutOfBounds (the post-increment still advances) |
| FlatRopes.FlatIterator.Remove | ropes-1.0.5/src/org/ahmadsoft/ropes/impl/FlatRope.java:76-78 | always fails with UnsupportedOperation |
| SubstringRopes.NewSubstring | ropes-1.0.5/src/org/ahmadsoft/ropes/impl/SubstringRope.java:45-53 | succeeds iff length >= 0, offset >= 0 and offset + length <= the base length, otherwise IndexOutOfBounds; the rope stands for that window, has depth 1 and the given length |
| SubstringRopes.SubSubSequence | ropes-1.0.5/src/org/ahmadsoft/ropes/impl/SubstringRope.java:89-92 | a new window on the same base, shifted by the substring's offset. It succeeds iff the shifted range fits the base; the substring's own length is not checked. For a range inside the substring it stands for that slice of the substring's text |
| RopeUtilities.Concatenate | ropes-1.0.5/src/org/ahmadsoft/ropes/impl/RopeUtilities.java:114-120 | two flat ropes shorter than 16 characters together merge into one flat rope of depth 0 holding both texts |
| RopeUtilities.AutoRebalance | ropes-1.0.5/src/org/ahmadsoft/ropes/impl/RopeUtilities.java:174-180 | a rope no deeper than 96 is returned unchanged |
| RopeUtilities.EmptySlots | ropes-1.0.5/src/org/ahmadsoft/ropes/impl/RopeUtilities.java:47 | 93 slots, all empty |
| RopeUtilities.FibonacciMonotone | ropes-1.0.5/src/org/ahmadsoft/ropes/impl/RopeUtilities.java:36 | the FIBONACCI table is non-decreasing from entry 1 on |
| RopeUtilities.FibonacciGrows | ropes-1.0.5/src/org/ahmadsoft/ropes/impl/RopeUtilities.java:36 | ten entries further on, a table entry is at least 32 times larger |
| RopeUtilities.FibonacciExponential | ropes-1.0.5/src/org/ahmadsoft/ropes/impl/RopeUtilities.java:36 | the table grows exponentially: entry n is at least 32^k once n >= 10k + 2 |
| RopeUtilities.FibonacciExceedsIntLengths | ropes-1.0.5/src/org/ahmadsoft/ropes/impl/RopeUtilities.java:36 | from entry 72 on, the table exceeds every `int` length, so the buckets cover all rope lengths |
| RopeUtilities.FindSlot | ropes-1.0.5/src/org/ahmadsoft/ropes/impl/RopeUtilities.java:60-68 | the slot found lies between the start and the last slot. Below the last slot, the length lies in that slot's Fibonacci bucket. `lowerSlotsEmpty` stays true iff every slot scanned on the way was empty |
| RopeUtilities.Prepend | ropes-1.0.5/src/org/ahmadsoft/ropes/impl/RopeUtilities.java:84-87 | an empty slot leaves the carried rope as it is |
| RopeUtilities.Absorb | ropes-1.0.5/src/org/ahmadsoft/ropes/impl/RopeUtilities.java:74-80 | with no accumulated rope the slot's rope is taken; an empty slot keeps the accumulator; the result is a rope whenever either was |
| RopeUtilities.FoldLow | ropes-1.0.5/src/org/ahmadsoft/ropes/impl/RopeUtilities.java:72-81 | empties exactly the slots j..pos and leaves all others, and yields a rope whenever one of those slots or the accumulator held one |
| RopeUtilities.FoldUp | ropes-1.0.5/src/org/ahmadsoft/ropes/impl/RopeUtilities.java:83-92 | leaves the slots below j untouched; every slot it fills holds a rope whose length lies in that slot's bucket |
| RopeUtilities.Place | ropes-1.0.5/src/org/ahmadsoft/ropes/impl/RopeUtilities.java:59-93 | keeps 93 slots (its content and bucket properties are RebalanceProofs.PlaceGood and RebalanceProofs.PlaceBuckets) |
| RopeUtilities.Drain | ropes-1.0.5/src/org/ahmadsoft/ropes/impl/RopeUtilities.java:49-95 | keeps 93 slots (content: RebalanceProofs.DrainGood) |
| RopeUtilities.IsBalanced | ropes-1.0.5/src/org/ahmadsoft/ropes/impl/RopeUtilities.java:160-165 | a depth from 91 on is never balanced; a byte depth below -2 indexes the table out of bounds; otherwise balanced iff length >= F(depth + 2) |
| RopeUtilities.IsBalancedHeight | ropes-1.0.5/src/org/ahmadsoft/ropes/impl/RopeUtilities.java:160-165 | the same in terms of the tree's real height; a flat rope is balanced iff non-empty, a substring rope iff at least 2 long |
| RopeUtilities.RebalanceImpl | ropes-1.0.5/src/org/ahmadsoft/ropes/impl/RopeUtilities.java:46-105 | the array algorithm returns exactly what the functional `Rebalance` specifies |
| RopeUtilities.PlaceImpl | ropes-1.0.5/src/org/ahmadsoft/ropes/impl/RopeUtilities.java:59-93 | the slot array after placing one unit is what `Place` gives for the array before |
| RopeUtilities.FindSlotImpl | ropes-1.0.5/src/org/ahmadsoft/ropes/impl/RopeUtilities.java:60-68 | the slot loop returns what `FindSlot` specifies |
| RopeUtilities.FoldLowImpl | ropes-1.0.5/src/org/ahmadsoft/ropes/impl/RopeUtilities.java:72-81 | the lower fold loop leaves the array and the accumulated rope `FoldLow` specifies |
| RopeUtilities.FoldUpImpl | ropes-1.0.5/src/org/ahmadsoft/ropes/impl/RopeUtilities.java:83-92 | the upward fold loop leaves the array `FoldUp` specifies |
| RebalanceProofs.FindSlotBucket | ropes-1.0.5/src/org/ahmadsoft/ropes/impl/RopeUtilities.java:63-67 | a unit whose length is at least F(pos) and fits an `int` finds a bucket below the last slot |
| RebalanceProofs.ConcatenateGood | ropes-1.0.5/src/org/ahmadsoft/ropes/impl/RopeUtilities.java:114-145 | concatenating two ropes without empty units, whose total length fits an `int`, succeeds. The result has no empty unit and stands for the left text followed by the right text |
| RebalanceProofs.ConcatenateShallow | ropes-1.0.5/src/org/ahmadsoft/ropes/impl/RopeUtilities.java:114-145 | two ropes less than 96 levels high concatenate without rebalancing, whatever their units hold (empty ones included): the result stands for the left text followed by the right text and is at most one level higher |
| RebalanceProofs.AutoRebalanceGood | ropes-1.0.5/src/org/ahmadsoft/ropes/impl/RopeUtilities.java:174-180 | automatic rebalancing keeps such a rope's text |
| RebalanceProofs.RebalanceGood | ropes-1.0.5/src/org/ahmadsoft/ropes/impl/RopeUtilities.java:46-105 | rebalancing a rope without empty units succeeds (never null) and yields a rope with the same text |
| RebalanceProofs.DrainGood | ropes-1.0.5/src/org/ahmadsoft/ropes/impl/RopeUtilities.java:49-95 | the traversal keeps the slots well formed and the last slot empty; the slots' text, read from the highest slot down, grows by exactly the stack's text |
| RebalanceProofs.PlaceGood | ropes-1.0.5/src/org/ahmadsoft/ropes/impl/RopeUtilities.java:59-93 | placing a unit appends its text to the slots' text and keeps them well formed |
| RebalanceProofs.PlaceDirectGood | ropes-1.0.5/src/org/ahmadsoft/ropes/impl/RopeUtilities.java:69-70 | storing a unit in its slot when all lower slots are empty appends its text |
| RebalanceProofs.PlaceBuckets | ropes-1.0.5/src/org/ahmadsoft/ropes/impl/RopeUtilities.java:59-93 | every slot that placing a non-empty unit fills holds a rope whose length lies in that slot's bucket |
| RebalanceProofs.PlaceFoldGood | ropes-1.0.5/src/org/ahmadsoft/ropes/impl/RopeUtilities.java:71-92 | the fold branch (lower slots merged, unit appended, carried upward) appends the unit's text |
| RebalanceProofs.PrependGood | ropes-1.0.5/src/org/ahmadsoft/ropes/impl/RopeUtilities.java:84-86 | prepending a slot's rope to the carried rope joins their texts in that order |
| RebalanceProofs.AbsorbGood | ropes-1.0.5/src/org/ahmadsoft/ropes/impl/RopeUtilities.java:74-80 | absorbing a slot into the accumulator joins their texts, slot first |
| RebalanceProofs.FoldLowGood | ropes-1.0.5/src/org/ahmadsoft/ropes/impl/RopeUtilities.java:72-81 | the lower fold succeeds and its rope stands for the folded slots' text followed by the accumulator's |
| RebalanceProofs.FoldUpGood | ropes-1.0.5/src/org/ahmadsoft/ropes/impl/RopeUtilities.java:83-92 | the upward fold succeeds, keeps the slots well formed, and keeps their text |
| RebalanceProofs.CombineGood | ropes-1.0.5/src/org/ahmadsoft/ropes/impl/RopeUtilities.java:97-104 | the final loop joins the slots' texts from the highest slot down |
| RebalanceProofs.DrainAppend | ropes-1.0.5/src/org/ahmadsoft/ropes/impl/RopeUtilities.java:52-58 | draining a stack `s1 + s2` is draining `s1` and then `s2` |
| RebalanceProofs.FindSlotEmptyUnit | ropes-1.0.5/src/org/ahmadsoft/ropes/impl/RopeUtilities.java:60-68 | a unit of length 0 fits no bucket and runs to the last slot |
| RebalanceProofs.CombineEmpty | ropes-1.0.5/src/org/ahmadsoft/ropes/impl/RopeUtilities.java:97-104 | with every remaining slot empty the final loop returns its accumulator unchanged (null when nothing was accumulated) |
| RebalanceProofs.PlaceEmptyUnit | ropes-1.0.5/src/org/ahmadsoft/ropes/impl/RopeUtilities.java:69-92 | placing a unit of length 0 while some slot is occupied leaves every slot empty |
| RebalanceProofs.DrainOccupies | ropes-1.0.5/src/org/ahmadsoft/ropes/impl/RopeUtilities.java:49-95 | draining a rope without empty units leaves some slot below the last occupied |
| RebalanceProofs.ZeroLengthUnitLost | ropes-1.0.5/src/org/ahmadsoft/ropes/impl/RopeUtilities.java:46-105 | rebalancing any such rope followed by an empty flat rope fails (the source returns null) |
| ConcatenationRopes.CharAt | ropes-1.0.5/src/org/ahmadsoft/ropes/impl/ConcatenationRope.java:56-65 | each node kind fails exactly where its source does (a substring rope checks only its base). Every index inside the rope reads the character of its text |
| ConcatenationRopes.SubSequence | ropes-1.0.5/src/org/ahmadsoft/ropes/impl/ConcatenationRope.java:104-116 | start > end always fails; a concatenation rejects start < 0 or end > length with IllegalArgument; flat and concatenation ropes fail on any invalid range |
| ConcatenationRopes.SubSequenceGood | ropes-1.0.5/src/org/ahmadsoft/ropes/impl/ConcatenationRope.java:104-116 | any valid range of a rope without empty units succeeds. The result stands for that slice, and has no empty unit when the range is not empty |
| ConcatenationRopes.SubSequenceShallow | ropes-1.0.5/src/org/ahmadsoft/ropes/impl/ConcatenationRope.java:104-116 | any valid range of a rope less than 96 levels high, empty units included, yields that slice, at most one level higher than the rope |
| ConcatenationRopes.SubSequenceConcatGood | ropes-1.0.5/src/org/ahmadsoft/ropes/impl/ConcatenationRope.java:108-115 | the same for a concatenation, by the three cases of the source |
| ConcatenationRopes.SubSequenceStraddleGood | ropes-1.0.5/src/org/ahmadsoft/ropes/impl/ConcatenationRope.java:113-115 | a range across both children is the two cut pieces concatenated, and stands for the slice |
| ConcatenationRopes.StraddleCut | ropes-1.0.5/src/org/ahmadsoft/ropes/impl/ConcatenationRope.java:113-115 | the straddling case is `concatenate` of the left piece and the right piece |
| ConcatenationRopes.RebalanceRope | ropes-1.0.5/src/org/ahmadsoft/ropes/impl/ConcatenationRope.java:118-121 | flat and substring ropes rebalance to themselves |
| ConcatenationRopes.RebalanceRopeGood | ropes-1.0.5/src/org/ahmadsoft/ropes/Rope.java:158-165 | `rebalance()` of a rope without empty units succeeds and keeps its text |
| ConcatenationRopes.Write | ropes-1.0.5/src/org/ahmadsoft/ropes/impl/ConcatenationRope.java:123-127 | `write(out)` appends exactly the rope's text |
| ConcatenationRopes.ToString | ropes-1.0.5/src/org/ahmadsoft/ropes/impl/AbstractRope.java:144-153 | `toString()` is the rope's text |
| ConcatenationRopes.FlatRangeWritten | ropes-1.0.5/src/org/ahmadsoft/ropes/impl/FlatRope.java:115-126 | passes under the same bounds as `FlatWrite`, emitting exactly the requested range, and nothing on failure or for length <= 0 |
| ConcatenationRopes.WriteRange | ropes-1.0.5/src/org/ahmadsoft/ropes/impl/ConcatenationRope.java:129-140 | `write(out, offset, length)` of any rope, as written, appends what `RangeWritten` gives and reports its outcome |
| ConcatenationRopes.SubstringRangeWriteOverrun | ropes-1.0.5/src/org/ahmadsoft/ropes/impl/SubstringRope.java:109-112 | asked for the first 2 characters of an 8-character substring, the write emits 10 |
| ConcatenationRopes.ConcatRangeWriteOverrun | ropes-1.0.5/src/org/ahmadsoft/ropes/impl/ConcatenationRope.java:135-139 | asked for "ab" of "a" + "bcd", the write emits "abc" |
| ConcatenationRopes.RangeWrittenFixedExact | ropes-1.0.5/src/org/ahmadsoft/ropes/Rope.java:173-177 | with the lengths corrected, writing any in-range window of any rope emits exactly that window and passes |
| ConcatIterators.Leftmost | ropes-1.0.5/src/org/ahmadsoft/ropes/impl/ConcatenationRopeIteratorImpl.java:79-87 | the descent through left children ends at an atomic unit |
| ConcatIterators.ConcatIterator.constructor | ropes-1.0.5/src/org/ahmadsoft/ropes/impl/ConcatenationRopeIteratorImpl.java:51-56 | the iterator starts on the leftmost unit, before its first character, with no skip |
| ConcatIterators.ConcatIterator.Initialize | ropes-1.0.5/src/org/ahmadsoft/ropes/impl/ConcatenationRopeIteratorImpl.java:78-92 | descends to the leftmost unit and establishes the iterator invariant |
| ConcatIterators.ConcatIterator.PopUnit | ropes-1.0.5/src/org/ahmadsoft/ropes/impl/ConcatenationRopeIteratorImpl.java:117-126 | pops the stack down to the next atomic unit; the unit's text followed by the remaining stack's text is the old stack's text, and the stack shrinks |
| ConcatIterators.ConcatIterator.HasNext | ropes-1.0.5/src/org/ahmadsoft/ropes/impl/ConcatenationRopeIteratorImpl.java:63-66 | true whenever characters remain; exactly then for a rope without empty units |
| ConcatIterators.ConcatIterator.MoveForward | ropes-1.0.5/src/org/ahmadsoft/ropes/impl/ConcatenationRopeIteratorImpl.java:105-128 | succeeds iff the amount is 0 or the target lies inside the text. The position then advances by exactly that amount. Otherwise it fails with IllegalArgument after exhausting the stack; a failed move from the last unit leaves unit, position and the text behind it unchanged. The absolute counter always advances, also on failure; a failed move that had to pop units stops on the last unit, before its first character |
| ConcatIterators.ConcatIterator.Next | ropes-1.0.5/src/org/ahmadsoft/ropes/impl/ConcatenationRopeIteratorImpl.java:68-73 | moves past any pending skip and returns the character of the text at the new position, clearing the skip; fails with IllegalArgument past the end, keeping the skip, with an empty stack, and from the last unit without moving the position; from an earlier unit it stops before the last unit's first character |
| ConcatIterators.ConcatIterator.CanMoveBackwards | ropes-1.0.5/src/org/ahmadsoft/ropes/impl/ConcatenationRopeIteratorImpl.java:94-96 | true iff the move stays within the current unit |
| ConcatIterators.ConcatIterator.MoveBackwards | ropes-1.0.5/src/org/ahmadsoft/ropes/impl/ConcatenationRopeIteratorImpl.java:98-103 | succeeds iff the move stays within the current unit, then lowers the offset in the unit, the position and the counter by the amount; otherwise IllegalArgument and nothing moves. The unit, the stack and the text behind never change |
| ConcatIterators.ConcatIterator.Skip | ropes-1.0.5/src/org/ahmadsoft/ropes/impl/ConcatenationRopeIteratorImpl.java:133-135 | records the skip; unit, stack, position and counter stay as they were |
| ConcatIterators.ConcatIterator.GetPos | ropes-1.0.5/src/org/ahmadsoft/ropes/impl/ConcatenationRopeIteratorImpl.java:142-144 | returns the absolute counter, which is the index of the last character delivered as long as no move has failed |
| ConcatIterators.ConcatIterator.Remove | ropes-1.0.5/src/org/ahmadsoft/ropes/impl/ConcatenationRopeIteratorImpl.java:137-140 | always fails with UnsupportedOperation |
| ConcatIterators.NewConcatIterator | ropes-1.0.5/src/org/ahmadsoft/ropes/impl/ConcatenationRopeIteratorImpl.java:51-61 | succeeds iff 0 <= start < length, otherwise IllegalArgument; the new iterator is positioned just before `start` |
| RopeIterators.IterTextCovers | ropes-1.0.5/src/org/ahmadsoft/ropes/impl/SubstringRope.java:77-82 | what iteration from `start` delivers begins with the text from `start`, and is exactly that text unless the walk ends in a substring rope |
| RopeIterators.SubstringIterationOverruns | ropes-1.0.5/src/org/ahmadsoft/ropes/impl/SubstringRope.java:77-82 | iterating a substring rope of 8 characters over a 10-character base delivers all 10 |
| RopeIterators.FlatIter | ropes-1.0.5/src/org/ahmadsoft/ropes/impl/FlatRope.java:59-64 | succeeds iff 0 <= start < length, otherwise IndexOutOfBounds; a fresh iterator over the sequence at `start` |
| RopeIterators.Iterator | ropes-1.0.5/src/org/ahmadsoft/ropes/impl/ConcatenationRope.java:88-97 | `iterator(start)` of every node kind succeeds iff 0 <= start < length. It delivers the walk `IterText` describes, which is exact for ropes without empty units. A start in the left child gives the concatenation iterator |
| RopeIterators.IteratorBounded | ropes-1.0.5/src/org/ahmadsoft/ropes/Rope.java:151-156 | the corrected iterator delivers exactly the text from `start` on |
| RopeIterators.IteratorFromStart | ropes-1.0.5/src/org/ahmadsoft/ropes/impl/AbstractRope.java:126-129 | `iterator()` fails on an empty rope; otherwise its walk covers the whole text |
| RopeIterators.IterHasNext | ropes-1.0.5/src/org/ahmadsoft/ropes/impl/ConcatenationRopeIteratorImpl.java:63-66 | true whenever characters remain to be walked; exactly then for an exact iterator |
| RopeIterators.IterNext | ropes-1.0.5/src/org/ahmadsoft/ropes/impl/ConcatenationRopeIteratorImpl.java:68-73 | delivers the next character of the walk and advances by one; fails past the end |
| RopeIterators.RegexCharSeq.constructor | ropes-1.0.5/src/org/ahmadsoft/ropes/impl/ConcatenationRope.java:154-157 | the adapter holds a fresh concatenation iterator over the rope, in step with its counter (-1) and with no skip |
| RopeIterators.RegexCharSeq.CharAt | ropes-1.0.5/src/org/ahmadsoft/ropes/impl/ConcatenationRope.java:159-179 | as written: each read lands as many characters early as the counter has drifted ahead of the position (a failed forward move leaves such a drift, and a stale skip is added on a read backwards). A read the current unit cannot serve goes to the rope's own `charAt`. From an in-step state every index inside the rope reads its character and the state stays in step; a negative index fails with IndexOutOfBounds; an index past the end fails with IllegalArgument |
| RopeIterators.RegexCharSeq.ReadAhead | ropes-1.0.5/src/org/ahmadsoft/ropes/impl/ConcatenationRope.java:161-169 | a read ahead sets the counter to the index; it reads the text at the index less the drift, or fails with IllegalArgument past the end, keeping the recorded skip; a failure that started before the last unit leaves the iterator before the last unit's first character |
| RopeIterators.RegexCharSeq.ReadBack | ropes-1.0.5/src/org/ahmadsoft/ropes/impl/ConcatenationRope.java:170-174 | a read back within the current unit reads the text at the index less the drift plus any stale skip, keeping the drift |
| RopeIterators.RegexCharSeq.CharAtChecked | ropes-1.0.5/src/org/ahmadsoft/ropes/impl/ConcatenationRope.java:159-179 | the corrected read: from an in-step state every index inside the rope reads its character, any other index fails with IndexOutOfBounds, and the state stays in step |
| RopeIterators.ReadPastEndTwice | ropes-1.0.5/src/org/ahmadsoft/ropes/impl/ConcatenationRopeIteratorImpl.java:105-113 | after the last character has been read, reading past the end fails once, and the same read then returns the last character |
| RopeIterators.StaleCounterReadsPastEnd | ropes-1.0.5/src/org/ahmadsoft/ropes/impl/ConcatenationRope.java:159-179 | for every concatenation without empty units: reading the last index, then one past the end twice, gives the last character, IllegalArgument, and the last character again |
| RopeIterators.StaleCounterExample | ropes-1.0.5/src/org/ahmadsoft/ropes/impl/ConcatenationRope.java:159-179 | over "ab" + "cd": `charAt(3)` is 'd', `charAt(4)` fails, and `charAt(4)` then returns 'd' |
| RopeIterators.RegexCharSeq.Length | ropes-1.0.5/src/org/ahmadsoft/ropes/impl/ConcatenationRope.java:181-184 | the rope's length, which is its text's length |
| RopeIterators.RegexCharSeq.SubSequence | ropes-1.0.5/src/org/ahmadsoft/ropes/impl/ConcatenationRope.java:186-189 | the rope's own `subSequence`; a valid range of a rope without empty units yields that slice |
| RopeEdits.Build | ropes-1.0.5/src/org/ahmadsoft/ropes/impl/AbstractRope.java:46 | the rope built from a character sequence stands for exactly its characters |
| RopeEdits.AppendChar | ropes-1.0.5/src/org/ahmadsoft/ropes/impl/AbstractRope.java:40-42 | a short flat rope absorbs the character into one flat `String` rope |
| RopeEdits.Append | ropes-1.0.5/src/org/ahmadsoft/ropes/impl/AbstractRope.java:45-47 | a short flat rope and a short suffix merge into one flat rope |
| RopeEdits.AppendRange | ropes-1.0.5/src/org/ahmadsoft/ropes/impl/AbstractRope.java:50-52 | an invalid range of a non-substring argument fails |
| RopeEdits.Delete | ropes-1.0.5/src/org/ahmadsoft/ropes/impl/AbstractRope.java:54-59 | `start == end` returns the rope itself; a start outside [0, length] or an end past the length fails for flat and concatenation ropes |
| RopeEdits.DeleteChecked | ropes-1.0.5/src/org/ahmadsoft/ropes/Rope.java:100-114 | fails iff start < 0, start > length or start > end; nothing to delete returns the rope itself |
| RopeEdits.Insert | ropes-1.0.5/src/org/ahmadsoft/ropes/impl/AbstractRope.java:114-124 | an offset outside [0, length] fails with IndexOutOfBounds |
| RopeEdits.AppendCharContent | ropes-1.0.5/src/org/ahmadsoft/ropes/impl/AbstractRope.java:40-42 | appending a character yields the text followed by that character |
| RopeEdits.AppendContent | ropes-1.0.5/src/org/ahmadsoft/ropes/impl/AbstractRope.java:45-47 | for a rope and a suffix without empty units, of total length within `int`: appending yields the text followed by the suffix |
| RopeEdits.AppendShallowContent | ropes-1.0.5/src/org/ahmadsoft/ropes/impl/AbstractRope.java:45-47 | for a rope and a suffix each less than 96 levels high, so never rebalanced, an empty suffix or empty units included: appending yields the text followed by the suffix |
| RopeEdits.AppendRangeContent | ropes-1.0.5/src/org/ahmadsoft/ropes/impl/AbstractRope.java:50-52 | for a rope and an argument without empty units and a non-empty range: appending yields the text followed by that range of the argument |
| RopeEdits.AppendRangeShallowContent | ropes-1.0.5/src/org/ahmadsoft/ropes/impl/AbstractRope.java:50-52 | for a rope less than 96 levels high and an argument less than 95, every valid range (`append(csq, k, k)` included) appends exactly that range of the argument |
| RopeEdits.DeleteContent | ropes-1.0.5/src/org/ahmadsoft/ropes/impl/AbstractRope.java:54-59 | as written, for a rope without empty units and indices that leave both pieces non-empty (0 < start, end < length): the result is the text before `start` followed by the text from `end`. When start > end this repeats characters and makes the rope longer |
| RopeEdits.DeleteShallowContent | ropes-1.0.5/src/org/ahmadsoft/ropes/impl/AbstractRope.java:54-59 | as written, for a rope less than 95 levels high and any two indices within it (`delete(0, k)`, `delete(k, length())` and empty units included): the text before `start` followed by the text from `end` |
| RopeEdits.DeleteToEndLosesText | ropes-1.0.5/src/org/ahmadsoft/ropes/impl/AbstractRope.java:58 | deleting to the end of a flat `String` rope of 17 or more characters leaves an empty unit, and `rebalance()` of the result fails (null) |
| RopeEdits.DeleteCheckedContent | ropes-1.0.5/src/org/ahmadsoft/ropes/Rope.java:100-114 | the checked delete removes exactly [start, min(end, length)) and leaves no empty unit unless everything is deleted |
| RopeEdits.DeleteCheckedRebalance | ropes-1.0.5/src/org/ahmadsoft/ropes/Rope.java:158-165 | the result of the checked delete rebalances to a rope with the same text |
| RopeEdits.InsertContent | ropes-1.0.5/src/org/ahmadsoft/ropes/Rope.java:134-149 | for a rope and a piece without empty units: inserting at any offset in [0, length] yields the text before it, the inserted text, then the rest |
| RopeEdits.InsertShallowContent | ropes-1.0.5/src/org/ahmadsoft/ropes/impl/AbstractRope.java:114-124 | for a rope less than 94 levels high and a piece less than 95, an empty piece or empty units included: inserting at any offset in [0, length] splices the piece's text in there |
| RopeEdits.InsertAtEnd | ropes-1.0.5/src/org/ahmadsoft/ropes/impl/AbstractRope.java:117-120 | the two ends of `insert` place the piece before or after the whole text |
| RopeEdits.InsertMiddle | ropes-1.0.5/src/org/ahmadsoft/ropes/impl/AbstractRope.java:123 | the inner splice yields the head, the piece, then the tail |
| RopeEdits.InsertNull | ropes-1.0.5/src/org/ahmadsoft/ropes/Rope.java:141-142 | inserting null inserts the four characters "null" |
| RopeQueries.Wrap32 | ropes-1.0.5/src/org/ahmadsoft/ropes/impl/AbstractRope.java:72 | `int` arithmetic lands in [-2^31, 2^31) |
| RopeQueries.PolyHash | ropes-1.0.5/src/org/ahmadsoft/ropes/impl/AbstractRope.java:70-72 | the hash of a character sequence, `h = 31 * h + c` from 0 in `int` arithmetic, is an `int` |
| RopeQueries.ContentHash | ropes-1.0.5/src/org/ahmadsoft/ropes/impl/AbstractRope.java:67-81 | the hash `hashCode` intends for a text: all characters when shorter than 6, otherwise a sample; always an `int` |
| RopeQueries.PolyHashStep | ropes-1.0.5/src/org/ahmadsoft/ropes/impl/AbstractRope.java:71-72 | one more character extends the hash by `31 * h + c` in `int` arithmetic |
| RopeQueries.ContentHashSample | ropes-1.0.5/src/org/ahmadsoft/ropes/impl/AbstractRope.java:73-78 | a text of 6 or more characters hashes as its first five characters and its last one |
| RopeQueries.HashPending | ropes-1.0.5/src/org/ahmadsoft/ropes/impl/AbstractRope.java:70-72 | the short-rope loop hashes everything the iterator delivers, and succeeds for an exact iterator |
| RopeQueries.HashStep | ropes-1.0.5/src/org/ahmadsoft/ropes/impl/AbstractRope.java:72 | one round reads the next character and extends the hash by it |
| RopeQueries.HashFirst | ropes-1.0.5/src/org/ahmadsoft/ropes/impl/AbstractRope.java:74-76 | the first `n` characters delivered are hashed |
| RopeQueries.HashSampled | ropes-1.0.5/src/org/ahmadsoft/ropes/impl/AbstractRope.java:73-78 | for six or more characters, the first five delivered and the last one give the rope's hash |
| RopeQueries.IterationHashExact | ropes-1.0.5/src/org/ahmadsoft/ropes/impl/AbstractRope.java:67-81 | when iteration is exact, the hash depends on the text alone |
| RopeQueries.HashCode | ropes-1.0.5/src/org/ahmadsoft/ropes/impl/AbstractRope.java:67-81 | `hashCode()` returns the hash of what iteration delivers. It succeeds for empty ropes, for ropes of 6 or more characters and for ropes without empty units |
| RopeQueries.FirstIndex | ropes-1.0.5/src/org/ahmadsoft/ropes/Rope.java:116-132 | -1 iff the character is absent; otherwise the index of its first occurrence |
| RopeQueries.FindPending | ropes-1.0.5/src/org/ahmadsoft/ropes/impl/AbstractRope.java:105-111 | the search loop returns the first index of the character in what the iterator delivers |
| RopeQueries.IndexOf | ropes-1.0.5/src/org/ahmadsoft/ropes/impl/AbstractRope.java:103-112 | an empty rope fails (its iterator cannot be created). Otherwise the result is the first index in the iterated text. It is the first index in the rope's text when the character occurs there, or when iteration is exact |
| RopeQueries.SubstringIndexOfOverrun | ropes-1.0.5/src/org/ahmadsoft/ropes/impl/AbstractRope.java:103-112 | a character present only beyond an 8-character substring is reported at index 9 |
| RopeQueries.IndexOfBounded | ropes-1.0.5/src/org/ahmadsoft/ropes/Rope.java:116-132 | with the bounded iterator, any index returned is the first occurrence in the rope's text and lies inside the rope |
| RopeQueries.SamePending | ropes-1.0.5/src/org/ahmadsoft/ropes/impl/AbstractRope.java:92-98 | true only if the first walk is a prefix of the second; for an exact first walk no longer than the second, the answer is exactly that |
| RopeQueries.CompareRound | ropes-1.0.5/src/org/ahmadsoft/ropes/impl/AbstractRope.java:92-97 | one round of the equality loop either extends the common prefix by one character or stops with the right answer |
| RopeQueries.NextPair | ropes-1.0.5/src/org/ahmadsoft/ropes/impl/AbstractRope.java:93-94 | reads one character from each iterator, succeeding iff both have one |
| RopeQueries.Equals | ropes-1.0.5/src/org/ahmadsoft/ropes/impl/AbstractRope.java:83-101 | true only for equal texts. Two empty ropes fail, because their iterators cannot be created. For ropes without empty units whose iteration is exact, the answer is equality of the texts |
| RopeQueries.EqualsByIteration | ropes-1.0.5/src/org/ahmadsoft/ropes/impl/AbstractRope.java:89-98 | the iteration part of `equals` for ropes of equal length |
| RopeQueries.EqualTextsEqualHashes | ropes-1.0.5/src/org/ahmadsoft/ropes/impl/AbstractRope.java:87-88 | the early exits of `equals` are sound: equal texts have equal hashes (with exact iteration) and equal lengths |
| RopeQueries.SameLengthIteration | ropes-1.0.5/src/org/ahmadsoft/ropes/impl/AbstractRope.java:89-98 | for ropes of equal length, a walk that is a prefix of the other means equal texts |
| RopeQueries.CompareAntisymmetric | ropes-1.0.5/src/org/ahmadsoft/ropes/impl/AbstractRope.java:131-142 | swapping the arguments negates the comparison |
| RopeQueries.CompareZero | ropes-1.0.5/src/org/ahmadsoft/ropes/impl/AbstractRope.java:131-142 | the comparison is 0 iff the texts are equal |
| RopeQueries.ComparePending | ropes-1.0.5/src/org/ahmadsoft/ropes/impl/AbstractRope.java:134-140 | the loop finds no difference iff the first `compareTill` characters agree, and otherwise returns the difference of the first mismatching pair |
| RopeQueries.CompareTo | ropes-1.0.5/src/org/ahmadsoft/ropes/impl/AbstractRope.java:131-142 | `compareTo` fails on an empty rope; otherwise it is the lexicographic comparison of the texts (first differing pair, else the length difference) |

## Left out

- The nesting of rebalances. `rebalance` appends with `concatenate`, which
  may call `autoRebalance` and so `rebalance` again. No measure shows this
  cycle ends, so the model carries a budget of 3 nested rebalances
  (`REBALANCE_NESTING`). With the budget spent, `AutoRebalance` returns
  the rope unrebalanced. Content is preserved either way.
- RopeQueries.HashCode: the `hashCode` cache field and its
  zero-means-unset convention are not modelled; the model computes the
  hash afresh on every call. Where the computation completes this gives
  the same value. It differs on the failure path: the source accumulates
  straight into the field (AbstractRope.java:70-72), so when `next()`
  fails partway through a short rope, the partial sum stays cached and
  every later call returns it (line 69 skips the loop), where the model
  fails again with `Err`. A short rope of a substring unit followed by an
  empty unit (for instance a flat rope over a 10-character non-`String`
  sequence, then `subSequence(0, 8).subSequence(0, 2).append('x').delete(1, 3)`)
  shows it: the first call fails after one character, and later calls
  in the source return that character's code.
- `equals` with an argument that is not a rope (it returns false).
  `Equals` takes two ropes.
- `matcher(Pattern)` and the regular-expression engine. Only the
  character-sequence adapter it reads through is modelled, and only for a
  concatenation whose left child is not empty, where `iterator(0)` is the
  concatenation iterator. When the left child is empty, `iterator(0)` is
  the right child's iterator: for a flat or substring right child the
  cast to the concatenation iterator fails (ClassCastException), and for
  a concatenation right child the adapter walks that child alone. Neither
  case is represented.
- The line the adapter's `charAt` prints to standard output when a read
  fails, before rethrowing (ConcatenationRope.java:167). Output is not
  modelled; the failure itself is.
- Ropes.MkConcat: the length is an unbounded integer. The source caches
  `left.length() + right.length()` in a Java `int`
  (ConcatenationRope.java:53), which wraps past 2^31-1; for instance 27
  self-appends of a 16-character rope give the length -2^31. The model
  assumes every rope length stays within `int`.
- FlatRopes.FlatSubSequence: `end - start` is an unbounded difference.
  In the source it is an `int` (FlatRope.java:89) and wraps for ranges
  far outside the rope: start = 2^31-1 with end = -2^31+7 gives 8, and
  the substring rope built from it passes its own check (see the next
  line), where the model fails with IndexOutOfBounds. The model assumes
  indices whose sums and differences stay within `int`.
- SubstringRopes.NewSubstring: `offset + length` is an unbounded sum. The
  source's `int` sum (SubstringRope.java:46) wraps for an offset near
  2^31-1, so such a window passes the check there and fails here. The
  model assumes the sum stays within `int`.
- SubstringRopes.SubSubSequence: the composed offset `offset + start` is
  an unbounded sum; the model assumes it stays within `int`.
- RopeIterators.RegexCharSeq.CharAt: the model states each read against
  the drift and stale skip a failed read leaves; it does not follow the
  regular-expression engine's own order of reads.
- `RopeBuilder` is not part of this model. `build` is taken to be:
  - a rope argument is used as it is;
  - any other character sequence becomes a flat rope over it.
- The `IOException` a `Writer` may throw. A writer is the sequence of
  characters written to it.
- `visualize`, `PerformanceTest` and the serialization advice.
- `RopeUtilities.depth` of a rope that is not an `AbstractRope`, which
  throws "Bad rope". Every modelled rope is one.
- Ropes.Str: a Java `char` is a UTF-16 code unit (0 to 0xFFFF, lone
  surrogates included); the model's text is a sequence of Dafny `char`s,
  which are Unicode scalar values (0 to 0x10FFFF without 0xD800-0xDFFF).
  The model therefore cannot hold a text with a lone surrogate, and admits
  characters above 0xFFFF that Java cannot hold. RopeQueries.PolyHash,
  RopeQueries.ContentHash and RopeQueries.Compare (`31 * h + c` at
  AbstractRope.java:72, `x - y` at AbstractRope.java:139) agree with the
  source only for texts whose characters are at most 0xFFFF and lie
  outside 0xD800-0xDFFF.
- FlatRopes.FlatSubSequence: a short slice takes its `isString` flag from
  the sequence it was cut from. In the source the copy is the sequence's
  own `subSequence` (FlatRope.java:90), which for a `StringBuilder` or
  `StringBuffer` returns a `String`. On such a slice a range `write` with
  a negative length throws in the source (FlatRope.java:120-121, the
  `String` branch) and succeeds, writing nothing, in the model.
- A substring rope keeps its base's characters but not whether the base is
  a `String`. Its writes use the non-`String` branch of the flat rope's
  `write`. A negative length on a `String` base therefore passes in the
  model, where the source throws.
- The concatenation iterator's "No terminal ropes present" exception and
  its initial null `currentRope`. Every well-formed tree has a leftmost
  unit, so neither can occur.
- ConcatIterators.ConcatIterator.MoveForward: requires a non-negative
  amount. Every caller in the source passes one (`start` is checked to be
  non-negative, and `next` passes `1 + skip`).
- ConcatIterators.ConcatIterator.MoveBackwards: requires a non-negative
  amount. Its one caller, the adapter's `charAt`, passes a positive one.
- ConcatIterators.ConcatIterator.Skip: requires a non-negative skip. The
  adapter only skips forward.
- RebalanceProofs.RebalanceGood: content preservation is proved for ropes
  without zero-length units and of at most 2^31-1 characters. A
  zero-length unit makes `rebalance` lose the text (see Findings).
- RebalanceProofs.ConcatenateGood: proved under the same two conditions.
  So are the content lemmas built on it, such as
  RopeEdits.AppendContent and RopeEdits.InsertContent. Their `Shallow`
  companions drop both conditions for ropes less than 96 levels high,
  which `autoRebalance` never rebalances. For a deeper rope with an empty
  unit the content is not promised, since `rebalance` can then lose it.
- RopeEdits.DeleteContent: covers only ropes without empty units and
  indices with 0 < start and end < length. `delete(0, k)` and
  `delete(k, length())` join an empty piece, which is an empty unit; on a
  rope deep enough for `autoRebalance` to rebalance that join, the text
  can be lost as in Findings row 2. RopeEdits.DeleteShallowContent states
  every pair of indices for ropes under that depth.
- RopeEdits.AppendRangeContent: covers only non-empty ranges of arguments
  without empty units. `append(csq, k, k)` joins an empty piece, with the
  same risk on a deep rope; RopeEdits.AppendRangeShallowContent states
  every valid range for ropes under that depth.
- RopeQueries.HashCode: the result is stated against what iteration
  delivers. It equals the text's hash only when iteration is exact, which
  a walk ending in a substring rope is not (see Findings).
- RopeQueries.Equals: the answer is exact only for ropes whose iteration
  is exact and that have no zero-length units.

## Findings

| source | as written | input that shows it | evidently intended | confidence | as-written member | corrected member |
|---|---|---|---|---|---|---|
| ropes-1.0.5/src/org/ahmadsoft/ropes/impl/AbstractRope.java:54-59 | `delete` joins `subSequence(0, start)` and `subSequence(end, length())` without checking `start <= end`; a start past the end repeats the characters in between | "abcdef".delete(4, 2) gives "abcdcdef" | fail when start > end, and read an end past the length as the length (interface documentation of `delete`) | not executed | RopeEdits.DeleteContent | RopeEdits.DeleteCheckedContent |
| ropes-1.0.5/src/org/ahmadsoft/ropes/impl/AbstractRope.java:58 | deleting up to the end appends an empty flat rope. `rebalance` finds no bucket for a unit of length 0, carries everything to the last slot and drops it there, so it returns null | a flat `String` rope of 20 characters, delete(16, 20), then rebalance() | the deleted rope rebalances to the same text | not executed | RopeEdits.DeleteToEndLosesText | RopeEdits.DeleteCheckedRebalance |
| ropes-1.0.5/src/org/ahmadsoft/ropes/impl/SubstringRope.java:77-82 | the substring's iterator is the base flat rope's iterator, whose `hasNext` tests the base's length, so iteration runs past the substring's end | a substring of length 8 at offset 0 of "abcdefghij" iterates "abcdefghij" | iteration stops at the substring's end | not executed | RopeIterators.SubstringIterationOverruns | RopeIterators.IteratorBounded |
| ropes-1.0.5/src/org/ahmadsoft/ropes/impl/AbstractRope.java:103-112 | `indexOf` follows that iterator, so it can report an index beyond the rope | the same substring: indexOf('j') returns 9 for a rope of length 8 | -1, since 'j' is not in the rope | not executed | RopeQueries.SubstringIndexOfOverrun | RopeQueries.IndexOfBounded |
| ropes-1.0.5/src/org/ahmadsoft/ropes/impl/SubstringRope.java:109-112 | `write(out, offset, length)` asks the base for `this.length + length` characters | the same substring: write(out, 0, 2) writes "abcdefghij" | write the 2 requested characters, "ab" | not executed | ConcatenationRopes.SubstringRangeWriteOverrun | ConcatenationRopes.RangeWrittenFixedExact |
| ropes-1.0.5/src/org/ahmadsoft/ropes/impl/ConcatenationRope.java:135-139 | a range across both children asks the right child for `right.length() - writeLeft` characters instead of `length - writeLeft` | "a" + "bcd" (a concatenation), write(out, 0, 2) writes "abc" | write "ab" | not executed | ConcatenationRopes.ConcatRangeWriteOverrun | ConcatenationRopes.RangeWrittenFixedExact |
| ropes-1.0.5/src/org/ahmadsoft/ropes/impl/ConcatenationRope.java:159-179 | a read past the end calls `next`, whose `moveForward` has already raised the counter before it fails; the adapter keeps that counter, so the next reads land one character early | "ab" + "cd": charAt(3) gives 'd', charAt(4) fails, and charAt(4) again gives 'd' | charAt(4) fails every time, and reads stay exact | not executed | RopeIterators.StaleCounterExample | RopeIterators.RegexCharSeq.CharAtChecked |
