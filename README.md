# Chunked parallel sort, modelled in Dafny

The program sorts a list of integers in three stages:

1. `splitIntoChunks` cuts the list into about sqrt(n) contiguous chunks.
   Chunk sizes differ by at most one.
2. `sortChunksConcurrently` sorts every chunk in place.
3. `mergeSortedChunks` merges the sorted chunks with an array-backed binary
   min-heap (`heapItem`, `minHeap`). The heap holds the next unused element of
   every chunk that is not yet used up.

The random, input-file and directory modes all run these three stages in that
order. The input-file and directory modes validate each line with
`parseIntStrict`.

The model follows the code's own form:

- The partitioner is a method with the source's running-offset loop. It copies
  each chunk into a fresh array. It is proved against `Partition`, a function
  that describes the chunks as values.
- The per-chunk sort is a loop over the chunk arrays that sorts each one in place.
- The heap is a class whose `data` field its methods reassign. `siftUp` and
  `siftDown` are the source's swap loops.
- The merge is the source's seeding loop followed by its `pop`/`push` loop.
  A ghost cursor per chunk records how far each chunk has been consumed.
- `parseIntStrict` is a method with the source's per-character loop. It is proved
  against `Parse`, a function that states the acceptance rule.

Modules:

- `Seqs` (seqs.dfy): sortedness and concatenation of chunk lists.
- `Chunking` (chunking.dfy): the chunk count, the chunk sizes and `splitIntoChunks`.
- `ChunkSort` (chunksort.dfy): `sortChunksConcurrently`.
- `Heap` (heap.dfy): `heapItem` and `minHeap`.
- `Merge` (merge.dfy): `mergeSortedChunks`.
- `Pipeline` (pipeline.dfy): split, sort and merge in a row, plus the modes' guard of at least ten numbers.
- `IntText` (inttext.dfy): `parseIntStrict`.

## Model

| member | source | states |
|---|---|---|
| Chunking.CeilSqrt | main.go:209 | the result k is the least natural number with n <= k * k, which is ceil(sqrt(n)) computed exactly; it is at most n |
| Chunking.ChunkCount | main.go:209-215 | for n >= 1 the chunk count lies between 1 and n |
| Chunking.ChunkCountBounds | main.go:209-215 | the count c satisfies n <= c * c; c >= 4 unless c == n; and above 4, (c - 1)^2 < n, so c is not larger than needed |
| Chunking.ChunkCountUnique | main.go:209-215 | any c within 1..n that meets those bounds is the chunk count, so the bounds characterise the clamped ceil(sqrt(n)) |
| Chunking.ChunkCountExamples | main.go:209-215 | 1, 10 and 100 elements give 1, 4 and 10 chunks |
| Chunking.ChunkStartClosed | main.go:217-229 | the running `start` before chunk i is i * (n / c) plus min(i, n % c) |
| Chunking.ChunkStartsWithin | main.go:220-230 | offsets never decrease, every offset is at most n, and after the last chunk the offset is exactly n |
| Chunking.Partition | main.go:206-234 | the chunks as values: there are ChunkCount(n) of them |
| Chunking.PartitionBalanced | main.go:217-226 | no chunk is empty; chunk i has n / c + 1 elements exactly when i < n % c and n / c otherwise; any two sizes differ by at most one |
| Chunking.PartitionChunk | main.go:220-229 | chunk i is the input between the i-th and the (i+1)-th running offset |
| Chunking.PartitionConcat | main.go:220-233 | concatenating the chunks in index order gives back the input exactly |
| Chunking.NextChunk | main.go:221-226 | one loop round: `base` elements, one more while i < `rem`, from the running offset, are chunk i, and `start + size` is the next offset |
| Chunking.CopyRange | main.go:227-228 | a fresh array holding the input range start..end |
| Chunking.SplitIntoChunks | main.go:206-234 | the arrays hold exactly the chunks of Partition; each is freshly allocated and no two are the same array, so sorting one chunk in place cannot change another; the input is a sequence value, so the split cannot modify it |
| ChunkSort.SortInts | main.go:246 | afterwards the array is ascending and a permutation of its former contents |
| ChunkSort.SortChunks | main.go:238-252 | afterwards every chunk is ascending and a permutation of its former contents; the list of chunks is unchanged |
| Heap.RootIsMin | main.go:287-317 | in a heap-ordered layout the root's value is at most the value in any slot |
| Heap.RootIsLeast | main.go:273-285 | hence the root's value is at most that of every item held |
| Heap.SiftUpStep | main.go:289-294 | swapping a slot with its larger parent moves the single order fault one level up |
| Heap.SiftUpDone | main.go:290-291 | once the parent is no larger, or the root is reached, the layout is heap-ordered |
| Heap.SiftDownStep | main.go:301-315 | swapping a slot with its smallest smaller child moves the single order fault one level down |
| Heap.SiftDownStepAt | main.go:301-315 | the same, for one parent/child pair of the swapped layout |
| Heap.SiftDownDone | main.go:311-312 | once no child is smaller, the layout is heap-ordered |
| Heap.ReplaceRoot | main.go:279-281 | moving the last item into the root of a heap leaves an order fault at the root only |
| Heap.MinHeap.constructor | main.go:326 | a new heap is empty and heap-ordered |
| Heap.MinHeap.Len | main.go:266 | the length is the number of items held; it is 0 exactly when the heap is empty |
| Heap.MinHeap.Push | main.go:268-271 | heap order is kept and the items are the old ones plus exactly x |
| Heap.MinHeap.Pop | main.go:273-285 | on an empty heap: false, the zero item, and the heap unchanged; otherwise true, an item held whose value is at most every other item's value, exactly that item removed, and heap order kept |
| Heap.MinHeap.SiftUp | main.go:287-296 | from a single fault at i, restores heap order without changing the items |
| Heap.MinHeap.SiftDown | main.go:298-317 | from a single fault at i, restores heap order without changing the items |
| Merge.SeedStep | main.go:327-332 | pushing the first element of chunk ci, or nothing when that chunk is empty, extends the frontier to the chunks up to ci |
| Merge.SeedHeap | main.go:326-332 | after seeding, the heap holds once each the first element of every non-empty chunk and nothing else |
| Merge.FrontierAdvance | main.go:335-344 | popping the head of a chunk and pushing that chunk's next element, if it has one, leaves the heap holding once each exactly the next unused element of every unfinished chunk |
| Merge.BagAdvance | main.go:336 | emitting the next unused element of a chunk keeps output plus unused elements equal to all elements |
| Merge.OrderedStep | main.go:335-336 | with ascending chunks, emitting the least head keeps the output ascending and no larger than anything unused |
| Merge.MergeStep | main.go:334-345 | one round keeps the whole merge invariant (frontier, every element accounted for, and the ordering when chunks are ascending), and there was an element left to emit |
| Merge.MergeRound | main.go:335-344 | the source's loop body: it pops an item held whose value is least, appends exactly that value to the output, moves that chunk's cursor on by one, and leaves the heap holding the old items minus the popped one plus the next element of its chunk, if any; the merge invariant is kept |
| Merge.MergeStart | main.go:324-332 | before the loop nothing is emitted and every element is unused |
| Merge.MergeDone | main.go:334 | once the heap is empty every chunk is used up, so the output is a permutation of the concatenated chunks and has its length |
| Merge.MergeSortedChunks | main.go:319-348 | the output is a permutation of the chunks' concatenation and has its length; it is ascending when every chunk is; all-empty or zero chunks give an empty output |
| Pipeline.SortPipeline | main.go:90-100 | split, sort and merge: the chunks before the sort are the partition; after the sort each is ascending and a permutation of itself before; the result is ascending, a permutation of the input, and of the same length |
| Pipeline.Run | main.go:115-132 | fewer than ten numbers are refused with their count; otherwise the result is ascending and a permutation of the input |
| Seqs.SortedUnique | main.go:100 | two ascending sequences with the same elements are equal; with SortPipeline's ensures, the pipeline's result is fully determined by its input, whatever the chunking |
| Seqs.ConcatPermutes | main.go:238-252 | permuting every chunk permutes their concatenation |
| Seqs.ConcatDropHead | main.go:335-336 | taking the first element off one chunk takes exactly that element out of the concatenation |
| Seqs.ConcatEmpty | main.go:327-330 | the concatenation is empty exactly when every chunk is |
| IntText.LeadingSpaces | main.go:418 | the number of leading white-space characters: all of them are white space and the next one is not |
| IntText.TrailingSpaces | main.go:418 | the same for the trailing end |
| IntText.TrimSpace | main.go:418 | the trimmed text is empty exactly when the line is all white space, and otherwise starts and ends with a non-space character |
| IntText.TrimSpacePadded | main.go:418 | trimming any white-space padding off a text with non-space ends gives back that text |
| IntText.TrimBom | main.go:419 | the result is the text itself, or the text with one leading byte order mark removed; it is the text itself exactly when the text does not start with a byte order mark |
| IntText.Atoi | main.go:439 | on a sign-and-digits text the result is a value or a range error; a value fits in 64 bits and is negative only after a - sign |
| IntText.ZerosValue | main.go:439 | leading zeros do not change the value of a digit string |
| IntText.AtoiDecimal | main.go:439 | an optional sign, any number of leading zeros and the digits of n convert to n, negated after -, when that fits in 64 bits, and give a range error exactly when it does not |
| IntText.Parse | main.go:417-440 | Empty exactly when nothing is left after trimming; SignWithoutDigits exactly for a lone + or -; a value or OutOfRange exactly when the text is an optional sign followed by digits only; every value fits in 64 bits |
| IntText.ParseSigned | main.go:417-440 | a sign-and-digits text behind white space and at most one byte order mark, and followed by white space, is converted as it stands |
| IntText.ParseDecimal | main.go:417-440 | a line made of white space, at most one byte order mark, an optional + or -, any leading zeros, the digits of n and white space gives the signed value of n when it fits in 64 bits, and OutOfRange exactly when it does not |
| IntText.ParseOutOfRange | main.go:439 | every integer outside the 64-bit range, written out in full and padded with white space, is refused as OutOfRange |
| IntText.ParseIntStrict | main.go:417-440 | the source's checks and digit loop return exactly Parse's result |
| IntText.Digits | main.go:452 | the decimal text of n is non-empty and made of digits only |
| IntText.DigitsValueOf | main.go:439 | reading back the decimal digits of n gives n |
| IntText.FormatIntShape | main.go:439-452 | `FormatInt` writes an integer as `fmt.Fprintln` does at main.go:452, without the line break; for a 64-bit integer that text is an optional - sign followed by digits, has no white space or byte order mark at either end, and converts back to the integer |
| IntText.ParseFormatInt | main.go:417-440 | every 64-bit integer, written as the directory mode writes it and padded with any white space, parses back to itself |

## Left out

- Command-line handling, usage output and process exit (`main`, `usageAndExit`) are not modelled. They are plumbing.
- The modes' printing and file-system work are not modelled: `printChunks`, `readIntsFromFile`, `writeIntsToFile`, `os.Stat`, `MkdirAll`, `ReadDir` and output-path naming. They are I/O. `Pipeline.Run` keeps only their guard of at least ten numbers and the split, sort and merge sequence.
- `generateRandomNumbers` is not modelled: it uses time-seeded randomness. The pipeline takes its numbers as a parameter.
- The goroutines and `sync.WaitGroup` in `sortChunksConcurrently` are not modelled. The chunks are distinct arrays, so sorting them one after another has the same effect. That is the model.
- `sort.Ints` is a library call. It is modelled by an in-place insertion sort that carries the library's postcondition: ascending and a permutation.
- `math.Sqrt` and `math.Ceil` on `float64` are replaced by the exact integer ceiling square root. Below 2^52 elements the two agree: `float64(n)` is exact, `math.Sqrt` rounds correctly, and the root of a non-square n lies farther than half a unit in the last place from the integer below it. From about 2^52 elements on, rounding can yield the integer just below the exact ceiling square root. The model does not capture that.
- Chunking.SplitIntoChunks: requires at least one number. With no numbers the source clamps the count to 0 and divides by zero at main.go:217, so the model requires at least one number. The modes never reach this case, because they require at least ten numbers.
- The `total` pre-count at main.go:320-324 is not modelled: it only sets the output slice's capacity.
- Merge.MergeSortedChunks: takes the chunks as values rather than arrays. The merge only reads them, so it cannot change them.
- Integers are unbounded, except in `parseIntStrict`, where `strconv.Atoi` is taken to be 64-bit. Overflow of the chunk values is not an issue, because the values are only compared and copied.
- IntText.TrimSpace: works on decoded characters, not on UTF-8 bytes. For valid UTF-8 the byte-level checks at main.go:426-436 give the same verdicts: a non-ASCII character always fails the digit check. How `strings.TrimSpace` treats invalid UTF-8 is not modelled.
- `readIntsFromFile`'s extra byte-order-mark trim and re-trim of the first line (main.go:393-395) is not modelled. It is part of the file reader; the model has only `parseIntStrict`'s own single trim.
