# ExtraDataStructures in Dafny

This project models the core of the Swift library ExtraDataStructures and proves properties about it. The core has these parts:

- **`AnyContiguousArray`**: a class that wraps a contiguous array of elements and forwards every mutation to it.
- **`AggregateArray`**: the same array, plus an *aggregate*. The aggregate is a summary value that each mutation updates incrementally.
- **`SegmentedArray`**: one logical array stored as a list of aggregate arrays, called *segments*. Each segment holds at most `maxSegmentSize` elements.
  - Positions are found by walking the segments: `entryForIndex` and `segmentsForRange`.
  - Range removal filters the segment list.
  - Splicing opens new segments when the current one is full.
- **`SegmentedArrayEntry`**: a cursor into one segment.
- **`NestedSequenceGenerator`**: flattens the segments back into one sequence.
- **Small helpers**:
  - the generic `sum` over integers;
  - `Array.moveFromIndex(_:to:)`;
  - `asHexString` on `UInt8` and `UInt32`.
- **`ErrorDictionary`**: an error that collects other errors by key and renders them line by line.
- **`Task`**: the dependency bookkeeping. A task waits for its dependencies to complete, merges their outputs into its inputs, and is queued to run once nothing is pending.

## How the model is built

The element type is fixed to `string`, and the aggregate is the `StringAggregate` that the tests use: a running count of characters. With these choices, "the aggregate is correct" becomes a checkable property: `Consistent()`, meaning the count equals `Total(elements)`.

Most Swift classes become Dafny classes whose methods update their fields in place:

- **`SegmentedArray`** keeps its segment objects in `segments: seq<AggregateArray>`. Two ghost fields sit beside them:
  - `Segs` is their element sequences;
  - `Repr` is the set of owned segments.
- **Logical contents:** `Contents()` is the concatenation `Concat(Segs)` of the segments.
- **Segment size:** `Bounded()` says that no segment exceeds `maxSegmentSize`.
- **Tasks** live in a `TaskRegistry`, a sequence of task records that name each other by index. Each closure the source dispatches becomes one atomic method.
- **The scheduling invariant** is `Scheduled`. It says that a task's pending count equals the number of times incomplete tasks list it as a dependant, and that a task is `Initializing` exactly while that count is positive.

The aggregate arrays' split carries a defect, described under "## Findings". The rest of the model uses the corrected split, including the segmented array wherever it splits a segment; "## Left out" lists the members this affects and an input on which the source's counts differ.

## Model

| member | source | states |
|---|---|---|
| Sequences.Splice | ExtraDataStructures/AnyContiguousArray.swift:92-94 | the new elements occupy positions i..i+\|xs\|; elements before i stay in place; elements from i on shift right by \|xs\| |
| Sequences.Insert | ExtraDataStructures/AnyContiguousArray.swift:96-98 | the element lands at i; earlier elements stay in place; later ones shift right by one |
| Sequences.RemoveAt | ExtraDataStructures/AnyContiguousArray.swift:100-102 | one element fewer; elements before i stay; elements after i shift left by one |
| Sequences.RemoveRange | ExtraDataStructures/AnyContiguousArray.swift:104-106 | hi-lo elements fewer; the prefix stays; the suffix shifts left by hi-lo |
| Sequences.ReplaceRange | ExtraDataStructures/AnyContiguousArray.swift:108-110 | the prefix stays; the new elements start at lo; the old suffix follows them |
| Sequences.ReplaceIsRemoveThenSplice | ExtraDataStructures/AggregateArray.swift:107-110 | replacing a range equals removing it and then splicing the new elements in at its start |
| Sequences.RemoveAtUndoesInsert | ExtraDataStructures/AnyContiguousArray.swift:96-102 | removing at i the element just inserted at i restores the sequence |
| ContiguousArrays.AnyContiguousArray.constructor | ExtraDataStructures/AnyContiguousArray.swift:15-17 | a new array is empty |
| ContiguousArrays.AnyContiguousArray.FromSequence | ExtraDataStructures/AnyContiguousArray.swift:19-21 | the array holds exactly the given elements |
| ContiguousArrays.AnyContiguousArray.IsEmpty | ExtraDataStructures/AnyContiguousArray.swift:49-53 | true exactly when the count is zero |
| ContiguousArrays.AnyContiguousArray.Count | ExtraDataStructures/AnyContiguousArray.swift:43-47 | the number of elements |
| ContiguousArrays.AnyContiguousArray.StartIndex | ExtraDataStructures/AnyContiguousArray.swift:55-59 | positions start at 0 |
| ContiguousArrays.AnyContiguousArray.Get | ExtraDataStructures/AnyContiguousArray.swift:33-36 | the element at the position |
| ContiguousArrays.AnyContiguousArray.EndIndex | ExtraDataStructures/AnyContiguousArray.swift:61-65 | equals the count; every index from startIndex up to it reads an element |
| ContiguousArrays.AnyContiguousArray.Set | ExtraDataStructures/AnyContiguousArray.swift:38-40 | only the slot at the index changes, and it now holds the new value |
| ContiguousArrays.AnyContiguousArray.GetRange | ExtraDataStructures/AnyContiguousArray.swift:68-71 | returns hi-lo elements, the k-th of which is the element at lo+k |
| ContiguousArrays.AnyContiguousArray.SetRange | ExtraDataStructures/AnyContiguousArray.swift:73-75 | assigning a range replaces it |
| ContiguousArrays.AnyContiguousArray.Append | ExtraDataStructures/AnyContiguousArray.swift:83-85 | the element is added at the end |
| ContiguousArrays.AnyContiguousArray.Extend | ExtraDataStructures/AnyContiguousArray.swift:87-89 | the new elements are added at the end, in order |
| ContiguousArrays.AnyContiguousArray.Splice | ExtraDataStructures/AnyContiguousArray.swift:92-94 | the elements are inserted before position i |
| ContiguousArrays.AnyContiguousArray.Insert | ExtraDataStructures/AnyContiguousArray.swift:96-98 | the element is inserted before position i |
| ContiguousArrays.AnyContiguousArray.RemoveAtIndex | ExtraDataStructures/AnyContiguousArray.swift:100-102 | returns the element that was at i and removes it |
| ContiguousArrays.AnyContiguousArray.RemoveRange | ExtraDataStructures/AnyContiguousArray.swift:104-106 | lo..<hi is removed |
| ContiguousArrays.AnyContiguousArray.ReplaceRange | ExtraDataStructures/AnyContiguousArray.swift:108-110 | lo..<hi is replaced by the new elements |
| ContiguousArrays.AnyContiguousArray.RemoveAll | ExtraDataStructures/AnyContiguousArray.swift:112-114 | no elements remain, whatever the capacity hint |
| AggregateSum.FoldSumAppend | ExtraDataStructures/AggregateSum.swift:8-16 | summing a concatenation adds the sums of its parts |
| AggregateSum.Sum | ExtraDataStructures/AggregateSum.swift:8-16 | the loop yields the left fold of `+` from zero |
| AggregateSum.SumMapped | ExtraDataStructures/AggregateSum.swift:18-26 | the loop yields the sum of the elements mapped through the block |
| StringAggregates.TotalAppend | ExtraDataStructuresTests/SegmentedArrayTests.swift:11-42 | the character count of a concatenation is the sum of the parts' counts |
| StringAggregates.TotalThreeWay | ExtraDataStructuresTests/SegmentedArrayTests.swift:37-41 | cutting at lo and hi splits the count into prefix, range and suffix, as addElements and removeElements assume |
| StringAggregates.TotalUpdate | ExtraDataStructuresTests/SegmentedArrayTests.swift:23-35 | replacing one string changes the count by the difference of the two weights |
| StringAggregates.TotalOfSingles | ExtraDataStructuresTests/SegmentedArrayTests.swift:204-227 | strings of one character count one apiece, as the tests' expected totals assume |
| StringAggregates.StringAggregate.AddElement | ExtraDataStructuresTests/SegmentedArrayTests.swift:23-25 | the count does not drop, and removing the same element gives back the old aggregate |
| StringAggregates.StringAggregate.AddElements | ExtraDataStructuresTests/SegmentedArrayTests.swift:27-31 | the count does not drop, and removing the same range gives back the old aggregate |
| StringAggregates.StringAggregate.RemoveElement | ExtraDataStructuresTests/SegmentedArrayTests.swift:33-35 | the count does not grow |
| StringAggregates.StringAggregate.RemoveElements | ExtraDataStructuresTests/SegmentedArrayTests.swift:37-41 | the count does not grow |
| StringAggregates.StringAggregate.OneByOne | ExtraDataStructuresTests/SegmentedArrayTests.swift:27-41 | adding or removing a range is the same as doing its shorter prefix and then its last element, as the tests' loops do |
| AggregateArrays.AggregateArray.constructor | ExtraDataStructures/AggregateArray.swift:11-14 | no elements; a fresh aggregate, which is consistent |
| AggregateArrays.AggregateArray.FromSequence | ExtraDataStructures/AggregateArray.swift:16-20 | the given elements, with the aggregate computed over all of them |
| AggregateArrays.AggregateArray.WithAggregate | ExtraDataStructures/AggregateArray.swift:22-25 | the given elements and the supplied aggregate, which is not recomputed |
| AggregateArrays.AggregateArray.Copy | ExtraDataStructures/AggregateArray.swift:27-30 | copies elements and aggregate; the copy is consistent if the original was |
| AggregateArrays.AggregateArray.Set | ExtraDataStructures/AggregateArray.swift:65-69 | one slot is replaced; the count changes by the weight difference; consistency is kept |
| AggregateArrays.AggregateArray.Get | ExtraDataStructures/AggregateArray.swift:60-63 | the element at the position |
| AggregateArrays.AggregateArray.Append | ExtraDataStructures/AggregateArray.swift:73-76 | the element is appended and exactly its weight added; consistency is kept |
| AggregateArrays.AggregateArray.Extend | ExtraDataStructures/AggregateArray.swift:78-82 | the elements are appended and exactly their weights added; consistency is kept |
| AggregateArrays.AggregateArray.Splice | ExtraDataStructures/AggregateArray.swift:85-90 | the elements are spliced in at i and their weights added; consistency is kept |
| AggregateArrays.AggregateArray.RemoveAtIndex | ExtraDataStructures/AggregateArray.swift:92-95 | returns and removes the element at i and subtracts its weight; consistency is kept |
| AggregateArrays.AggregateArray.RemoveRange | ExtraDataStructures/AggregateArray.swift:97-100 | lo..<hi is removed and its weights subtracted; consistency is kept |
| AggregateArrays.AggregateArray.Insert | ExtraDataStructures/AggregateArray.swift:102-105 | the element is inserted at i and its weight added; consistency is kept |
| AggregateArrays.AggregateArray.ReplaceRange | ExtraDataStructures/AggregateArray.swift:107-110 | lo..<hi is replaced; the count loses the old weights and gains the new ones; consistency is kept |
| AggregateArrays.AggregateArray.RemoveAll | ExtraDataStructures/AggregateArray.swift:112-115 | no elements remain and the aggregate is fresh |
| AggregateArrays.AggregateArray.SplitAtIndexAsWritten | ExtraDataStructures/AggregateArray.swift:36-57 | each of the three branches as the code runs it; the new half's aggregate is summed over self's first elements |
| AggregateArrays.AggregateArray.SplitAtIndex | ExtraDataStructures/AggregateArray.swift:36-57 | self keeps elements[..index] and the new array gets elements[index..]; both aggregates stay consistent |
| AggregateArrays.SplitOffAggregateCounts | ExtraDataStructures/AggregateArray.swift:51-56 | the corrected split-off aggregate counts exactly the moved elements |
| AggregateArrays.SplitOffAggregateAsWrittenMiscounts | ExtraDataStructures/AggregateArray.swift:54 | splitting ["ab", "c"] at 1 as written gives the new half a count of 2 although it holds one character |
| AggregateArrays.AggregateArray.Split | ExtraDataStructures/AggregateArray.swift:32-34 | splits at half the count; both halves are consistent |
| AggregateArrays.SplitMiddleScenario | ExtraDataStructuresTests/AggregateArrayTests.swift:12-20 | eight one-character strings split into two halves of four elements and four characters each |
| SegmentedArrayEntries.SegmentedArrayEntry.Aggregate | ExtraDataStructures/SegmentedArrayEntry.swift:21-25 | exactly the segment's own aggregate, which counts the segment's elements when the segment is consistent |
| SegmentedArrayEntries.SegmentedArrayEntry.Siblings | ExtraDataStructures/SegmentedArrayEntry.swift:27-31 | the very segment object holding the entry, shared rather than copied |
| SegmentedArrayEntries.SegmentedArrayEntry.Element | ExtraDataStructures/SegmentedArrayEntry.swift:34-36 | the segment's element at the entry's local index; `SegmentedArray.Get` ties it to the contents at the entry's position |
| SegmentedArrayEntries.SegmentedArrayEntry.SetElement | ExtraDataStructures/SegmentedArrayEntry.swift:38-40 | only the cursor's slot changes; the segment's aggregate follows and stays consistent |
| NestedSequenceGenerators.NestedSequenceGenerator.constructor | ExtraDataStructures/NestedSequenceGenerator.swift:19-26 | what remains to yield is the concatenation of the segments; the generator is exhausted exactly when there are none |
| NestedSequenceGenerators.NestedSequenceGenerator.Next | ExtraDataStructures/NestedSequenceGenerator.swift:28-44 | yields the first remaining element and drops it, skipping empty segments; returns nil, changing nothing, once nothing remains |
| NestedSequenceGenerators.Drain | ExtraDataStructures/NestedSequenceGenerator.swift:28-44 | calling next until nil yields exactly the concatenation of the segments |
| ArrayMove.Moved | ExtraDataStructures/Array+Move.swift:9-24 | the moved array is a permutation of the original; equal indices change nothing and need not be in range |
| ArrayMove.MovedForward | ExtraDataStructures/Array+Move.swift:16-18 | moving forward, the element lands at to-1, the elements in between shift left, and the rest stay |
| ArrayMove.MovedBackward | ExtraDataStructures/Array+Move.swift:20-22 | moving backward, the element lands at to, the elements in between shift right, and the rest stay |
| ArrayMove.MoveFromIndex | ExtraDataStructures/Array+Move.swift:9-24 | equal indices return the array unchecked; otherwise inserting at to and then removing the original (at from, or at from+1 when moving backward) gives `Moved` |
| ArrayMove.MoveBack | ExtraDataStructures/Array+Move.swift:16-22 | moving forward and then back from the landing slot restores the array |
| ArrayMove.MoveInPlaceScenario | ExtraDataStructures/Array+Move.swift:10-12 | equal indices return at once: an empty array with 0 to 0 and [1] with 5 to 5 come back unchanged |
| ArrayMove.MoveScenario | ExtraDataStructures/Array+Move.swift:16-18 | [a, b, c, d] with 0 moved to 3 becomes [b, c, a, d] |
| Hex.Digit | ExtraDataStructures/Number+Hex.swift:11 | a lowercase hex digit, which is '0' only for zero |
| Hex.DigitValue | ExtraDataStructures/Number+Hex.swift:11 | the inverse of `Digit` |
| Hex.DigitRoundTrip | ExtraDataStructures/Number+Hex.swift:11 | each digit reads back as its value |
| Hex.Radix16 | ExtraDataStructures/Number+Hex.swift:11 | at least one lowercase digit, no leading zero, and it reads back as the value |
| Hex.Radix16Length | ExtraDataStructures/Number+Hex.swift:9-33 | a value below 16^k takes at most k digits, so padding never has to cut |
| Hex.ParseZeros | ExtraDataStructures/Number+Hex.swift:13-15 | the padding alone reads as zero |
| Hex.ParseLeadingZeros | ExtraDataStructures/Number+Hex.swift:13-15 | prepended zeros do not change the value read |
| Hex.StripPadding | ExtraDataStructures/Number+Hex.swift:13-15 | stripping the padding gives back the minimal numeral |
| Hex.AsHexString | ExtraDataStructures/Number+Hex.swift:9-33 | the numeral left-padded with zeros to the width; it reads back as the value and strips back to the numeral |
| Hex.UInt8AsHexString | ExtraDataStructures/Number+Hex.swift:9-19 | exactly two lowercase hex digits that read back as the value |
| Hex.UInt32AsHexString | ExtraDataStructures/Number+Hex.swift:23-33 | exactly eight lowercase hex digits that read back as the value |
| Hex.HexScenario | ExtraDataStructures/Number+Hex.swift:9-33 | 0xab gives "ab", 10 gives "0a", and 0xbeef gives "0000beef" |
| ErrorDictionaries.LinesAppend | ExtraDataStructures/ErrorDictionary.swift:47-52 | the lines for two runs of keys follow one another |
| ErrorDictionaries.LineOfEntry | ExtraDataStructures/ErrorDictionary.swift:47-52 | every stored error has its own line in the rendering |
| ErrorDictionaries.ErrorDictionary.constructor | ExtraDataStructures/ErrorDictionary.swift:15-17 | no errors |
| ErrorDictionaries.ErrorDictionary.Get | ExtraDataStructures/ErrorDictionary.swift:24-26 | an error exactly when the key is stored, and it is the stored one |
| ErrorDictionaries.ErrorDictionary.Set | ExtraDataStructures/ErrorDictionary.swift:28-30 | stores the error, or removes the key when given nil; other keys keep their entries |
| ErrorDictionaries.ErrorDictionary.Count | ExtraDataStructures/ErrorDictionary.swift:33-37 | the number of keys; zero exactly when the dictionary is empty |
| ErrorDictionaries.ErrorDictionary.Render | ExtraDataStructures/ErrorDictionary.swift:39-79 | "" with no errors; otherwise "\n" and then one line per key, each key exactly once |
| ErrorDictionaries.ErrorDictionary.Description | ExtraDataStructures/ErrorDictionary.swift:39-56 | the rendering with each error's description |
| ErrorDictionaries.ErrorDictionary.LocalizedDescription | ExtraDataStructures/ErrorDictionary.swift:58-79 | the rendering with each error's localized description |
| ErrorDictionaries.ErrorDictionary.UserInfo | ExtraDataStructures/ErrorDictionary.swift:81-90 | exactly two keys: the error map under "Errors" and the localized rendering under the description key |
| ErrorDictionaries.ErrorDictionaryScenario | ExtraDataStructures/ErrorDictionary.swift:39-56 | one error stored under "a" renders as "\n\na: bad" |
| SegmentedArrays.SegmentedArray.constructor | ExtraDataStructures/SegmentedArray.swift:15-17 | no segments; the maximum segment size is 128 |
| SegmentedArrays.SegmentedArray.WithMaxSegmentSize | ExtraDataStructures/SegmentedArray.swift:19-21 | no segments; the given maximum segment size |
| SegmentedArrays.SegmentedArray.FromSequence | ExtraDataStructures/SegmentedArray.swift:23-29 | the contents are the given elements; with a positive maximum no segment exceeds it and the number of segments is the element count divided by the maximum, rounded up |
| SegmentedArrays.SegmentedArray.AggregateForSegment | ExtraDataStructures/SegmentedArray.swift:38-40 | the segment's aggregate counts exactly that segment's characters |
| SegmentedArrays.SegmentedArray.Aggregates | ExtraDataStructures/SegmentedArray.swift:42-46 | one aggregate per segment, in segment order, each counting its segment |
| SegmentedArrays.SumOfSegmentCounts | ExtraDataStructures/SegmentedArray.swift:42-46 | summing the segments' counts gives the character count of the whole contents |
| SegmentedArrays.SegmentedArray.EntryForIndex | ExtraDataStructures/SegmentedArray.swift:49-90 | the entry addresses position min(index, count); contents unchanged; with a load, the entry's segment has room, or the entry is at the end of the last segment, or inside the contents its segment is empty; an empty array gets one empty segment; with a load at a position inside the contents, the segment list is unchanged when the position's segment has room, and otherwise that segment is cut at the position, with an empty segment between the halves when the second half has no room either |
| SegmentedArrays.SegmentedArray.EntryInside | ExtraDataStructures/SegmentedArray.swift:59-76 | for element i of segment k: without a load nothing changes and the entry is (k, i); with a load the segment list is the old one or the split one, as for `EntryForIndex`, and the entry's segment has room or is empty |
| SegmentedArrays.SegmentedArray.EntryAtEnd | ExtraDataStructures/SegmentedArray.swift:82-89 | the entry is the end of the last segment, at the count; with no segments one empty segment is added, otherwise nothing changes |
| Sequences.LocatesUnique | ExtraDataStructures/SegmentedArray.swift:53-80 | each position of the contents lies in exactly one segment, at one place, so the walk's answer is the only one |
| Sequences.LocatesInside | ExtraDataStructures/SegmentedArray.swift:53-80 | a position found in some segment lies inside the contents |
| Sequences.OffsetAfter | ExtraDataStructures/SegmentedArray.swift:53-80 | a later segment starts at or past the end of every earlier one |
| SegmentedArrays.SegmentedArray.Locate | ExtraDataStructures/SegmentedArray.swift:53-80 | finds the segment and local index of the position exactly when it lies inside the contents |
| SegmentedArrays.SegmentedArray.SplitForLoad | ExtraDataStructures/SegmentedArray.swift:60-73 | the segment list becomes the old one with segment k cut at i, and with an empty segment between the halves exactly when the second half has no room for the load; the entry is the start of the segment after the first half; contents and bound are kept |
| SegmentedArrays.SegmentedArray.OpenGap | ExtraDataStructures/SegmentedArray.swift:67-70 | an empty segment enters between the two halves of a split; contents and bound are kept |
| SegmentedArrays.SplitAt | ExtraDataStructures/SegmentedArray.swift:62-70 | the split layout has one more segment, or two with the gap; the segments before and after are the old ones and the halves are the old segment's prefix and suffix |
| SegmentedArrays.GapInserted | ExtraDataStructures/SegmentedArray.swift:67-70 | putting an empty segment after the first half of a split gives the split with a gap |
| SegmentedArrays.SegmentedArray.SplitSegment | ExtraDataStructures/SegmentedArray.swift:62-65 | the segment list becomes the old one with segment k cut at i, its tail the next segment; contents and bound are kept |
| SegmentedArrays.SplitInPlace | ExtraDataStructures/SegmentedArray.swift:62-65 | cutting a segment in two keeps the concatenation and gives the split layout; the cut lands at the old offset plus i |
| SegmentedArrays.SplitWithin | ExtraDataStructures/SegmentedArray.swift:62-65 | cutting a segment keeps every segment within the bound |
| SegmentedArrays.SegmentedArray.KeepFirstPart | ExtraDataStructures/SegmentedArray.swift:62 | the segment keeps its first i elements; the rest is returned as a consistent fresh segment |
| SegmentedArrays.SegmentedArray.InsertSegment | ExtraDataStructures/SegmentedArray.swift:65 | the segment list gains the segment at the position; the contents gain its elements there |
| SegmentedArrays.SegmentedArray.InsertEmptySegment | ExtraDataStructures/SegmentedArray.swift:67-70 | an empty segment enters at the position; contents, offsets and bound are kept |
| SegmentedArrays.EmptySegmentInserted | ExtraDataStructures/SegmentedArray.swift:67-70 | an empty segment put in anywhere leaves the concatenated elements, the segments before it and the size bound unchanged |
| SegmentedArrays.SegmentedArray.SegmentCount | ExtraDataStructures/SegmentedArray.swift:100-104 | the number of segments |
| SegmentedArrays.SegmentedArray.Generate | ExtraDataStructures/SegmentedArray.swift:172-174 | a generator that yields exactly the contents, in order |
| SegmentedArrays.SegmentedArray.IsEmpty | ExtraDataStructures/SegmentedArray.swift:177-181 | true exactly when there are no segments, which implies no elements |
| SegmentedArrays.SegmentedArray.Count | ExtraDataStructures/SegmentedArray.swift:183-193 | the summed segment lengths equal the length of the contents |
| SegmentedArrays.SegmentedArray.Get | ExtraDataStructures/SegmentedArray.swift:195-198 | the element at the position; nothing changes |
| SegmentedArrays.SegmentedArray.Set | ExtraDataStructures/SegmentedArray.swift:200-203 | the contents with one position replaced; every segment keeps its length |
| SegmentedArrays.UpdatedInSegment | ExtraDataStructures/SegmentedArray.swift:200-203 | replacing the element at a slot of one segment replaces the element at that slot's offset in the concatenation, and nothing else |
| SegmentedArrays.SegmentedArray.SetThrough | ExtraDataStructures/SegmentedArrayEntry.swift:38-40 | writing through an entry changes that one slot of its segment |
| SegmentedArrays.SegmentedArray.RemoveThrough | ExtraDataStructures/SegmentedArray.swift:290 | removing through an entry takes that slot out of its segment |
| SegmentedArrays.SegmentedArray.InsertThrough | ExtraDataStructures/SegmentedArray.swift:295 | inserting through an entry puts the element at that slot of its segment |
| SegmentedArrays.SegmentedArray.GetRange | ExtraDataStructures/SegmentedArray.swift:219-236 | exactly lo..<hi of the contents, clamped to the count |
| SegmentedArrays.SegmentedArray.SegmentsForRange | ExtraDataStructures/SegmentedArray.swift:112-159 | the reported stretches lie in consecutive segments and together cover exactly lo..<hi of the contents |
| SegmentedArrays.StartWalk | ExtraDataStructures/SegmentedArray.swift:113-117 | the walk's starting state for the range, before any segment |
| SegmentedArrays.AdvanceStep | ExtraDataStructures/SegmentedArray.swift:120-140 | one segment's step of the walk keeps its offsets, or stops at the segment holding the range's end |
| SegmentedArrays.Advance | ExtraDataStructures/SegmentedArray.swift:120-140 | the walk is inside the range once the range starts before the segment's end, enters at this segment exactly when it was outside, keeps `i` on entering, and reaches the range's end, keeping `j`, once the end lies before the segment's end |
| SegmentedArrays.Stretch | ExtraDataStructures/SegmentedArray.swift:142-156 | for walk offsets within the segment, the reported stretch is a range of that segment inside 0..<count |
| SegmentedArrays.SegmentedArray.WalkOne | ExtraDataStructures/SegmentedArray.swift:119-157 | one pass of the loop either keeps the walk's invariant for the next segment or ends with the full cover |
| SegmentedArrays.SegmentedArray.WalkStep | ExtraDataStructures/SegmentedArray.swift:142-157 | the stretch reported for one segment is that segment's part of the range |
| SegmentedArrays.SegmentedArray.Append | ExtraDataStructures/SegmentedArray.swift:248-268 | the element is appended to the contents; the segment list becomes `AppendLayout` of the old one: a new segment holding just the element opens only when there is none or the last is full, and otherwise the last segment gains it; the bound is kept |
| SegmentedArrays.SegmentedArray.AppendInNewSegment | ExtraDataStructures/SegmentedArray.swift:249-265 | a new last segment holds just the element |
| SegmentedArrays.SegmentedArray.AppendToLastSegment | ExtraDataStructures/SegmentedArray.swift:267 | the last segment gains the element; a non-full last segment keeps the bound |
| SegmentedArrays.SegmentedArray.Extend | ExtraDataStructures/SegmentedArray.swift:270-285 | the elements are appended to the contents; the segment list is `ExtendLayout` of the old one (of one empty segment when there were none), so a segment opens only when the last one is full; at least one segment remains; the bound is kept |
| SegmentedArrays.SegmentedArray.ExtendOne | ExtraDataStructures/SegmentedArray.swift:277-284 | the segment list becomes `AppendLayout` of the old one: the element goes into the last segment, or into a new last segment when the last one is full |
| SegmentedArrays.SegmentedArray.ExtendLast | ExtraDataStructures/SegmentedArray.swift:275-284 | with a last segment present, the segment list becomes `ExtendLayout` of the old one |
| SegmentedArrays.AppendLayout | ExtraDataStructures/SegmentedArray.swift:277-284 | the elements are the old ones followed by the new one; at most one segment is added, and the last segment is not empty |
| SegmentedArrays.AppendLayoutKeeps | ExtraDataStructures/SegmentedArray.swift:277-284 | every segment but the last stays as it was, and no segment grows past the maximum |
| SegmentedArrays.ExtendLayout | ExtraDataStructures/SegmentedArray.swift:275-284 | no segment is removed |
| SegmentedArrays.ExtendLayoutKeeps | ExtraDataStructures/SegmentedArray.swift:275-284 | the new elements follow the old ones in order, and no segment grows past the maximum |
| SegmentedArrays.ExtendedFrom | ExtraDataStructures/SegmentedArray.swift:270-285 | starting from one empty segment when there are none, the contents are the old ones followed by the new, and the bound is kept |
| SegmentedArrays.ExtendLayoutFills | ExtraDataStructures/SegmentedArray.swift:275-284 | the segments before the old last one stay; every segment from the old last one up to the new last one is full; the new last one holds between 1 and the maximum once anything was added |
| SegmentedArrays.ExtendLayoutFits | ExtraDataStructures/SegmentedArray.swift:275-284 | up to the maximum number of elements extended into one empty segment stay in that one segment |
| SegmentedArrays.ExtendLayoutSingle | ExtraDataStructures/SegmentedArray.swift:275-284 | extending by one element is one `AppendLayout` |
| SegmentedArrays.SegmentedArray.RemoveAtIndex | ExtraDataStructures/SegmentedArray.swift:288-291 | returns the element at i and removes it from the contents; segments and bound are kept |
| SegmentedArrays.RemovedFromSegment | ExtraDataStructures/SegmentedArray.swift:288-291 | the element at a slot of one segment is the concatenation's element at that offset, and removing it there removes exactly that position from the concatenation |
| SegmentedArrays.SegmentedArray.Insert | ExtraDataStructures/SegmentedArray.swift:293-296 | the element is inserted at min(i, count); for an inner position the bound is kept |
| SegmentedArrays.SegmentedArray.RemoveRange | ExtraDataStructures/SegmentedArray.swift:298-353 | the contents lose exactly lo..<hi (clamped); no segment is added; the bound is kept |
| SegmentedArrays.SegmentedArray.StartFilter | ExtraDataStructures/SegmentedArray.swift:299-303 | the filter's starting state: nothing kept yet |
| SegmentedArrays.SegmentedArray.FilterAll | ExtraDataStructures/SegmentedArray.swift:305-352 | after the filter, the kept segments concatenate to the contents with the range cut out |
| SegmentedArrays.SegmentedArray.FilterFrom | ExtraDataStructures/SegmentedArray.swift:305-352 | the filter's closure applied to the remaining segments in turn keeps its bookkeeping |
| SegmentedArrays.SegmentedArray.FilterStep | ExtraDataStructures/SegmentedArray.swift:306-351 | one call of the closure trims the segment, then keeps or drops it, keeping the bookkeeping |
| SegmentedArrays.SegmentedArray.TrimForRange | ExtraDataStructures/SegmentedArray.swift:310-349 | the segment loses its part of the range; it is dropped only when the whole segment lies inside the range |
| SegmentedArrays.TrimStep | ExtraDataStructures/SegmentedArray.swift:310-349 | one step of the walk over a segment: a segment before the range is kept whole, one covered entirely is dropped, and one where the range starts or ends keeps exactly what lies outside its stretch |
| SegmentedArrays.FilterCut | ExtraDataStructures/SegmentedArray.swift:305-352 | after each segment, the kept segments hold exactly the elements seen so far minus the range |
| SegmentedArrays.SegmentedArray.FilterKeep | ExtraDataStructures/SegmentedArray.swift:306-351 | a segment the filter keeps joins the kept list, which still holds the elements before the walk minus the range |
| SegmentedArrays.SegmentedArray.FilterDrop | ExtraDataStructures/SegmentedArray.swift:306-351 | a segment the filter drops lay wholly inside the range, so the kept list still holds the elements before the walk minus the range |
| SegmentedArrays.SegmentedArray.KeptIsValid | ExtraDataStructures/SegmentedArray.swift:305-352 | the segments the finished filter keeps are owned, distinct and consistent, and hold exactly the contents minus the range |
| SegmentedArrays.SegmentedArray.AdoptKept | ExtraDataStructures/SegmentedArray.swift:305 | the kept segments become the segment list, holding the contents with the range cut out |
| SegmentedArrays.SegmentedArray.Splice | ExtraDataStructures/SegmentedArray.swift:360-374 | the elements are inserted at min(i, count); segments that fill up are followed by new ones; the bound is kept; at a position inside the contents, with no more new elements than the maximum, the segment count grows by exactly what `entryForIndex` adds: none, one or two |
| SegmentedArrays.SegmentsAdded | ExtraDataStructures/SegmentedArray.swift:60-74 | at most two segments are added, and none exactly when the segment has room for the load |
| SegmentedArrays.SegmentedArray.SpliceOne | ExtraDataStructures/SegmentedArray.swift:363-373 | one element goes in at the entry, after a new segment is opened if the entry's segment is full; when the entry's segment has room for the rest, no segment is opened and the room remains |
| SegmentedArrays.SegmentedArray.OpenSegmentAfter | ExtraDataStructures/SegmentedArray.swift:364-369 | an empty segment enters after the entry's segment, at the entry's offset |
| SegmentedArrays.SegmentedArray.ReplaceRange | ExtraDataStructures/SegmentedArray.swift:355-358 | the clamped range is removed and the elements are spliced in at its start; the bound is kept; the segment list between the two steps has no more segments than before and holds the contents minus the range, and the splice adds to it what `Splice` states |
| SegmentedArrays.SegmentedArray.RemoveAll | ExtraDataStructures/SegmentedArray.swift:376-382 | no segments and no contents |
| SegmentedArrays.Printed | ExtraDataStructures/SegmentedArray.swift:400 | `print` writes the string followed by its default terminator, a newline |
| SegmentedArrays.SegmentedArray.Description | ExtraDataStructures/SegmentedArray.swift:385-408 | "[" + the printed elements (each with its trailing newline) separated by ", " + "]", or "[]" when empty; its length is the character count plus three per element |
| SegmentedArrays.DescriptionScenario | ExtraDataStructures/SegmentedArray.swift:385-408 | ["a", "b"] is described as "[a\n, b\n]" |
| SegmentedArrays.DescribeElements | ExtraDataStructures/SegmentedArray.swift:395-402 | the inner loop appends one segment's printed elements, each after ", " unless it is the first |
| SegmentedArrays.DescribeStep | ExtraDataStructures/SegmentedArray.swift:396-400 | each printed element is preceded by ", " exactly when something came before it |
| SegmentedArrays.JoinLength | ExtraDataStructures/SegmentedArray.swift:394-403 | every element contributes its characters and a newline, and every gap contributes two |
| SegmentedArrays.JoinSnoc | ExtraDataStructures/SegmentedArray.swift:396-400 | one more printed element follows the others after a ", " gap, or stands alone |
| SegmentedArrays.CharacterCount | ExtraDataStructuresTests/SegmentedArrayTests.swift:214 | the summed segment aggregates equal the character count of the contents |
| SegmentedArrays.RemoveRangeScenario | ExtraDataStructuresTests/SegmentedArrayTests.swift:178-202 | "0" to "15" in segments of four, with 1...14 removed, leave ["0", "15"] |
| SegmentedArrays.FourInOneSegment | ExtraDataStructuresTests/SegmentedArrayTests.swift:205-209 | ["1", "2", "4", "5"] in segments of four is four elements in one segment of four characters, as both tests check before changing it |
| SegmentedArrays.ExtendScenario | ExtraDataStructuresTests/SegmentedArrayTests.swift:53-80 | built by `extend` instead of `append`: eight one-character elements in segments of eight are eight elements in one segment; a ninth gives nine elements in two segments of eight and one characters |
| SegmentedArrays.EightInOneSegment | ExtraDataStructuresTests/SegmentedArrayTests.swift:74-76 | eight elements extended into an empty array with segments of eight give one segment holding all eight |
| SegmentedArrays.ExtendedEightThenNine | ExtraDataStructuresTests/SegmentedArrayTests.swift:74-80 | the layouts of eight elements, then a ninth, in segments of eight, and their characters |
| SegmentedArrays.SpliceScenario | ExtraDataStructuresTests/SegmentedArrayTests.swift:204-215 | the splice gives the expected eight elements and eight characters, in at least two segments |
| Sequences.ConcatWithin | ExtraDataStructuresTests/SegmentedArrayTests.swift:213 | segments of at most max elements hold at most max times their number, so eight elements in segments of four need at least two |
| SegmentedArrays.ReplaceRangeScenario | ExtraDataStructuresTests/SegmentedArrayTests.swift:217-227 | replacing 1...2 leaves five elements and seven characters in exactly two segments |
| SegmentedArrays.ReplacedCharacters | ExtraDataStructuresTests/SegmentedArrayTests.swift:226 | ["1", "2b", "3", "4b", "5"] holds seven characters |
| Tasks.Repeat | ExtraDataStructures/Task.swift:50-60 | n copies of a task index, as a dependency listed n times registers n times |
| Tasks.Merged | ExtraDataStructures/Task.swift:122-130 | the dependency's outputs overwrite the inputs key by key; other inputs stay |
| Tasks.MergedErrors | ExtraDataStructures/Task.swift:122-130 | a failed dependency's error is recorded under its identifier; nothing changes otherwise |
| Tasks.MergeTwice | ExtraDataStructures/Task.swift:122-130 | merging the same dependency twice is merging it once |
| Tasks.WaitingUpdate | ExtraDataStructures/Task.swift:132-140 | replacing one task changes each pending tally by the difference in its listings |
| Tasks.WaitingSnoc | ExtraDataStructures/Task.swift:41-48 | a task added at the end does not change the tallies over the earlier tasks |
| Tasks.UpdateKeepsScheduled | ExtraDataStructures/Task.swift:71-110 | a change that keeps a task's count, dependants and completion keeps the scheduling invariant |
| Tasks.Notified | ExtraDataStructures/Task.swift:132-140 | a task told c times of a dependency's completion: outputs merged, count lowered by c, Queued when it reaches zero |
| Tasks.NotifiedAgain | ExtraDataStructures/Task.swift:132-140 | being told once more is being told one time more |
| Tasks.TaskRegistry.constructor | ExtraDataStructures/Task.swift:24-39 | no tasks, and the invariant holds |
| Tasks.TaskRegistry.MergeInputs | ExtraDataStructures/Task.swift:122-130 | only task t's inputs and input errors change, to the merge with d |
| Tasks.TaskRegistry.CopyOutputs | ExtraDataStructures/Task.swift:124-126 | copying the outputs one key at a time, in any order, gives the merge |
| Tasks.TaskRegistry.Run | ExtraDataStructures/Task.swift:71-96 | the task becomes Queued and nothing else changes |
| Tasks.TaskRegistry.Execute | ExtraDataStructures/Task.swift:74-85 | the task is Running with the body's outputs, and a thrown error is stored; the invariant is kept |
| Tasks.TaskRegistry.DependancyHasCompleted | ExtraDataStructures/Task.swift:132-140 | the dependency's outputs are merged and the count drops by one; the task is Queued at zero |
| Tasks.TaskRegistry.Create | ExtraDataStructures/Task.swift:41-69 | a new task waits for its incomplete dependencies, is listed by each of them, holds the merge of the completed ones, and is Queued when nothing is pending; the invariant is kept |
| Tasks.TaskRegistry.AppendTask | ExtraDataStructures/Task.swift:41-48 | the record is added, Initializing, with nothing registered yet |
| Tasks.TaskRegistry.AppendKeepsScheduled | ExtraDataStructures/Task.swift:41-48 | a new task, listed nowhere and waiting for nothing, keeps the invariant except for its own state |
| Tasks.TaskRegistry.StartIfReady | ExtraDataStructures/Task.swift:62-67 | the new task is Queued when nothing is pending and stays Initializing otherwise; the invariant is restored |
| Tasks.TaskRegistry.NotYetListed | ExtraDataStructures/Task.swift:41-48 | no earlier task lists the new one yet |
| Tasks.TaskRegistry.RegisterOne | ExtraDataStructures/Task.swift:50-60 | one pass of the registration loop keeps its bookkeeping |
| Tasks.TaskRegistry.AddDependant | ExtraDataStructures/Task.swift:53-56 | an incomplete dependency lists the new task once more; the invariant is kept |
| Tasks.TaskRegistry.ListingKeepsScheduled | ExtraDataStructures/Task.swift:53-56 | one more listing together with one more pending count keeps the invariant |
| Tasks.TaskRegistry.Completed | ExtraDataStructures/Task.swift:112-120 | the task is Completed with no dependants; each dependant listed c times is told c times; the invariant is kept |
| Tasks.TaskRegistry.MarkCompleted | ExtraDataStructures/Task.swift:113 | marking the task Completed starts the notification loop |
| Tasks.TaskRegistry.ClearDependants | ExtraDataStructures/Task.swift:119 | once every dependant is told, emptying the list restores the invariant |
| Tasks.TaskRegistry.NotifyOne | ExtraDataStructures/Task.swift:115-117 | telling the next listed dependant keeps the loop's bookkeeping |
| Tasks.TaskRegistry.NotifyReady | ExtraDataStructures/Task.swift:115-117 | the next listed dependant comes later in the registry and is still waiting |
| Tasks.TaskRegistry.NotifyStep | ExtraDataStructures/Task.swift:115-117 | one notification keeps the loop's bookkeeping |
| Tasks.TaskRegistry.NotifyCounts | ExtraDataStructures/Task.swift:132-140 | the told dependant waits for one listing fewer; every other count is unchanged |
| Tasks.TaskRegistry.NotifyStaged | ExtraDataStructures/Task.swift:132-140 | the told dependant is Queued exactly when its count reaches zero |
| Tasks.TaskRegistry.NotifyHistory | ExtraDataStructures/Task.swift:115-117 | the told dependant is its original record, told once more |
| Tasks.DependenciesScenario | ExtraDataStructuresTests/TaskTests.swift:24-59 | after Task1 and Task2 finish, the dependent task is Queued with inputs Task1 = 1 and Task2 = 2 and with Task2's error |
| Tasks.CreateFirst | ExtraDataStructuresTests/TaskTests.swift:33-37 | Task1 has no dependencies and is Queued at once |
| Tasks.CreateSecond | ExtraDataStructuresTests/TaskTests.swift:39-45 | Task2 has no dependencies and is Queued at once |
| Tasks.CreateDependant | ExtraDataStructuresTests/TaskTests.swift:47-56 | the third task is listed by both and waits for two |
| Tasks.FinishFirst | ExtraDataStructuresTests/TaskTests.swift:33-37 | when Task1 completes, the third task receives its output and waits for one |
| Tasks.FinishSecond | ExtraDataStructuresTests/TaskTests.swift:39-45 | when Task2 completes with EINVAL, the third task receives its output and error and is Queued |

## Left out

- The elements are fixed to `string`, and the aggregate is the tests' `StringAggregate`. The tests weigh a string by `characters.count`, its number of grapheme clusters; the model's `Weight` counts Unicode scalars, so "e" followed by a combining acute accent weighs 1 there and 2 here. The Swift classes are generic over the element and the `AggregateType`. Here `AggregateArray` is a class of its own rather than a subclass of `AnyContiguousArray`.
- Capacity hints are not modelled: `reserveCapacity`, `segmentCapacity` and `underestimateCount`. They do not change contents. Splice computes its load from the count of the new elements.
- `traverse` is not modelled, and neither is the `startIndex`/`endIndex` pair of `SegmentedArray`, which simply returns 0 and `count`.
- Swift `Int` overflow is not modelled: counts and indices are unbounded integers.
- Negative positions and the traps Swift raises on out-of-range subscripts are not modelled. `SegmentedArray`'s position methods require `index >= 0`, and positions past the end clamp to the end, as `entryForIndex` does. Range operations clamp the range to the contents.
- SegmentedArrays.SegmentedArray.Insert: the segment-size bound is proved only for positions inside the contents. Inserting at the end can go past `maxSegmentSize`, because `entryForIndex` then returns the last segment without checking the load.
- SegmentedArrays.SegmentedArray.Splice: the segment count is stated only for a position inside the contents and at most `maxSegmentSize` new elements. At the end, or with more elements, the loop opens further segments as segments fill, and how many is not stated.
- SegmentedArrays.SegmentedArray.RemoveRange: the segment list afterwards is stated by its concatenation and by having no more segments than before, not segment by segment. The same holds for the intermediate list that `SegmentedArrays.SegmentedArray.ReplaceRange` reports.
- SegmentedArrays.SegmentedArray.Set: a position at or past the end makes `entryForIndex` return the end of the last segment, where the source's subscript traps. The model requires a position inside the contents, and so does `SegmentedArrays.SegmentedArray.Get`.
- removeRange's `filter` closure is modelled as a recursion over the segment index (`FilterFrom`). The closure's captured variables become the walk state.
- `NestedSequenceGenerator` takes the segments' element sequences as values when it is created. Later mutation of the segments is not reflected, and the generator is not lazy.
- ErrorDictionaries.ErrorDictionary.Get: keys are modelled as `string`. The source's subscript takes any `NSCopying` key (ErrorDictionary.swift:23), and the rendering writes the key through string interpolation (ErrorDictionary.swift:50); key equality and the interpolated text of non-string keys are not modelled. The same holds for `ErrorDictionaries.ErrorDictionary.Set` and the rendering members.
- ErrorDictionaries.ErrorDictionary.Render: Swift's dictionary iteration order is unspecified. The rendering is stated for the order the loop happens to take, which is reported as a ghost sequence listing each key once.
- The `ErrorDictionary` heading fields `_description` and `_localizedDescription` are never assigned in the source, so they are left out. Their effect, an empty heading, is in the model.
- Task dispatch is not modelled: queues, barriers, concurrency and notifications (`_setState` and the notification centre). Each closure the source queues is one atomic method. `Execute` and `Completed` are separate steps.
- Tasks.TaskRegistry.Create: the registration closure runs on the caller's queue, because the parameter `queue` shadows the private global queue (Task.swift:12, 41, 49). It is therefore not serialized with `_completed` and `_dependancyHasCompleted`, which run on the private queue (Task.swift:95, 112-140). The model assumes that `Create` and `Completed` are atomic with respect to each other; the source does not guarantee it. For example, a dependency can complete between the state check (Task.swift:52) and the append (Task.swift:53), or between its notify loop (Task.swift:115-117) and `removeAll()` (Task.swift:119). The new task is then counted as waiting but never told, and it stays Initializing.
- Tasks.TaskRegistry.Completed: its atomicity with respect to `Create` is assumed, as the line above explains.
- Task identity is the index in a registry. Output values are integers rather than `AnyObject`. The task description, progress, barrier flag and atomics are left out.
- Task bodies are outcomes passed in from outside: their outputs and an optional error.
- SegmentedArrays.SegmentedArray.EntryForIndex: it splits segments with the corrected `splitAtIndex` of the Findings row, not the defective one the source calls (SegmentedArray.swift:62, AggregateArray.swift:54). Because of this, `Valid()` can keep every segment `Consistent()`, which the source does not. For example, with `maxSegmentSize` 2, append "ab" and "c", then insert "x" at 1. In the source, `entryForIndex` splits at 1 and the new segment ["c"] gets a count of 2. After the insert it is ["x", "c"] with 3, so the segment counts sum to 5 for 4 characters. The model gives 2 and 4. The same holds for `Insert`, `Splice` and `ReplaceRange`, which go through it.
- SegmentedArrays.SegmentedArray.SplitForLoad: uses the corrected split, as the `EntryForIndex` line explains.
- SegmentedArrays.SegmentedArray.SplitSegment: uses the corrected split, as the `EntryForIndex` line explains.
- SegmentedArrays.SegmentedArray.KeepFirstPart: uses the corrected split, as the `EntryForIndex` line explains.
- SegmentedArrays.SegmentedArray.AggregateForSegment: its count matches the segment's characters only because of the corrected split; in the source it can be wrong after a split (see the `EntryForIndex` line).
- SegmentedArrays.SegmentedArray.Aggregates: likewise relies on the corrected split (see the `EntryForIndex` line).
- SegmentedArrays.CharacterCount: likewise relies on the corrected split; in the source the sum can exceed the character count after a split (see the `EntryForIndex` line).
- AggregateArrays.AggregateArray.Split: goes through the corrected `SplitAtIndex`; the source's `split` calls the defective one (AggregateArray.swift:33).
- File moves (`Task+MoveFile*`), POSIX calls, floating point and `NSTimeInterval` are not part of this model.
- Also not part of this model: `Reference`/`ReferenceCache`, `String+CharacterAccess` and the protocol declarations.

## Findings

| source | as written | input that shows it | evidently intended | confidence | as-written member | corrected member |
|---|---|---|---|---|---|---|
| ExtraDataStructures/AggregateArray.swift:54 | the split-off array's aggregate is summed over `self`'s first `right.count` elements, which `self` keeps, not over the elements it moves | ["ab", "c"] split at index 1: the new array holds "c" but its aggregate counts 2 characters | sum the aggregate over the moved elements, `index..<count` | not executed | AggregateArrays.SplitOffAggregateAsWrittenMiscounts | AggregateArrays.AggregateArray.SplitAtIndex |
