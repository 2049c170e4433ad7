# Verified models of bpftrace's user-space logic

This project models, in Dafny, the parts of bpftrace that decide how typed values are laid out in
BPF memory, how map contents become printed results, how debug information becomes record types,
and how compiler passes, format strings, probes and buffers are handled.  It proves what those
parts promise on all inputs.

`dafny verify dfyconfig.toml` checks everything.  Each file holds one module of the same name.

| component | modules |
|---|---|
| Type algebra and record layout | `SizedTypes`, `TypeOrder`, `Widening`, `Layout`, `SameSize` |
| Decoding map bytes | `Bytes`, `Aggregates`, `Codec`, `RoundTrip`, `Decoding`, `PerProcessor` |
| Sorting by key, greatest entries | `KeySort`, `KeyMeaning`, `TopEntries`, `RankedMaps`, `SignedExtremes` |
| Histograms | `LogBuckets`, `LinearBuckets`, `Histograms`, `LinearHistograms`, `HistogramData`, `RecordedHistograms` |
| Time series | `TimeSeries`, `TimeSeriesRing`, `RecordedSeries` |
| Pass pipeline | `PassPipeline` |
| Format strings | `FormatRegex`, `FormatStrings`, `FormatRoundTrip`, `Numerals` |
| Type import from BTF | `TypeGraph`, `RecordFields`, `TypeRuns`, `TypeFrames`, `ImportState`, `ImportCorrect`, `DeclaredTypes`, `TypeImport` |
| When an import ends | `EarlyCalls`, `ImportEnds`, `ImportLoops`, `LoopExamples` |
| Imported fields, bitfields and values | `FlattenedFields`, `ImportedLayout`, `Bitfields`, `DeclaredValues` |
| Functions, probes, buffers | `Registry`, `Attachment`, `BufferPages` |
| Shared | `Prelude`, `Arithmetic` |

Code that changes state step by step is modelled by classes and methods with loops; each is proved
against a specification whose properties are proved as lemmas.  Code made of expressions is
modelled by functions.

## Where the code differs from what one would expect

Each of these is a lemma or a method contract below, with the exact condition.

- Two types fit into each other without being equal when they differ only in the sign flag of
  strings (`Widening.FitsIntoAntisymmetric`).  The program never sets that flag, and without it
  mutual fit is equality (`Widening.MutualFitIsEqual`).
- The in-tuple alignment, which the allocator divides by, is zero for empty scalars and empty arrays,
  and not for empty strings and empty tuples (`Layout.ZeroAlignmentIff`).
- A string that fills its buffer is printed with the truncation trailer
  (`RoundTrip.FullStringGainsTrailer`), so a stored value is decoded unchanged exactly when the trailer
  is empty or no string in it fills its buffer (`RoundTrip.ShownIff`).
- The divisor of a signed integer is cut to the width of the integer, so some divisors other than 0 are
  divisions by zero (`PerProcessor.ZeroDivisorIff`).
- Unsigned key fields are sorted as signed numbers (`KeyMeaning.UnsignedOrderIff`).
- Equal strings in keys are ordered by the bytes after their terminators, which `str` fills with 255
  and literals with 0 (`KeyMeaning.StoredStringsIff`).  Two tuple keys are out of order exactly when
  they first differ there and the fields after it descend (`KeyMeaning.SortedByValues`, with a pair in
  `KeyMeaning.PoisonedTailBreaksOrder`).
- A histogram count of 2^31 or more is read as a negative `int`, so a histogram keeps its total
  exactly when the counts are bracketed by visible ones (`Histograms.ConservationExact`).
- The bounds of a linear histogram are narrowed to `int` for printing.  The printed edges are right
  exactly when the last one is below 2^31 (`LinearHistograms.EdgesRightIff`, with a wrong edge in
  `LinearHistograms.NarrowedBounds`).  The analyser counts the buckets in an `int`, too
  (`LinearHistograms.AcceptedFitsIff`).
- Unsigned samples of 2^63 and more are counted as negative, so an unsigned sample is counted in its
  own interval exactly when it is below 2^63 (`LogBuckets.UnsignedSampleIff`,
  `LinearBuckets.UnsignedLinearIff`).
- Integer maps are sorted by 64-bit words of the value, of which narrower integers have none.  The
  greatest entries are always kept exactly when the integers have 64 bits, nothing is dropped, or all
  are the same (`RankedMaps.NarrowTopIff`, with a failing map in `RankedMaps.NarrowTopFails`).
- Signed minimum and maximum maps are ranked by the extreme of the unsigned values.  The rank is the
  value printed exactly when the processors' values have the same sign
  (`SignedExtremes.RankIsValueIff`).  Where that is so for each entry, the entries kept are the greatest
  exactly when all are kept or all printed values have the same sign (`SignedExtremes.OneSignTopIff`).
  Otherwise it depends on the pairs: no entry dropped may overtake one kept
  (`SignedExtremes.MixedTopIff`, with a failing map in `SignedExtremes.MixedTopFails`).
- A time series whose window reaches below epoch 0 is empty (`TimeSeries.EmptyIffUnderflow`).  The
  series are returned in key order, not sorted by their latest epoch as the comment says.
- An `r` specifier swallows a following `h` or `x` (`FormatRoundTrip.ParseInvertsPrint`).
- A union takes the fields of a struct of the same name (`TypeGraph.FindsOwnKindIff`, with an example in
  `TypeGraph.UnionFindsStruct`).
- Behind a pointer, an array of records is imported with its fields.  A call is early if its caller is
  a record that may still have no fields, which is the import of the type of its first field
  (`ImportLoops.EarlyIsFirstField`).  Where every member has a type, an import ends exactly when no call
  that it leads to comes back to itself by early calls (`ImportLoops.EndsIffNoLoop`).  So a record whose
  first member is a pointer to an array of itself is never imported (`LoopExamples.SelfArrayNeverEnds`),
  and one with a field in front of that member is (`LoopExamples.LaterArrayEnds`).  A member without a
  type can cut a loop (`LoopExamples.ClearedLoopEnds`); the condition remains sufficient
  (`ImportEnds.NoLoopEnds`).
- Arrays of bytes grow by a terminator when imported, so arrays of such arrays have another stride
  than in memory (`ImportedLayout.SizeKeptIff`, `ImportedLayout.CharMatrixGrows`).
- A member location that is not the byte of a bitfield's first bit makes DWARF 4 bitfields extract
  other bits (`Bitfields.LocationMustAgree`).
- The histogram loop counts skipped entries in 32 bits, which is wrong only above 2^32 entries; a map
  of the kernel has fewer (`TopEntries.PrintHistograms`).
- A name can have more than two functions (`Registry.AtMostTwoIff`, with three in
  `Registry.ThreeFunctions`).
- The number of buffer pages is zero when the memory is less than a page for each processor
  (`BufferPages.PerCpuPages`, with an example in `BufferPages.NoPages`).

## Model

| member | source | states |
|---|---|---|
| `TypeOrder.EqualIffSameKey` | src/types.cpp:130-170 | The order calls two types equal exactly when all parts it looks at are the same, at every depth of pointers, arrays and tuples |
| `TypeOrder.CompareFlip` | src/types.cpp:135-160 | Antisymmetry and totality: swapping the operands turns less into greater and keeps equal |
| `TypeOrder.CompareTransitive` | src/types.cpp:135-170 | Transitivity, with the exact outcome of a chain: a strict step anywhere makes the whole chain strict |
| `TypeOrder.SameTypeIffSameSkeleton` | src/types.cpp:101-123 | Being of the same type is equality of the shape of the type, so it is an equivalence |
| `TypeOrder.EqualTypesAreSame` | src/types.cpp:101-135 | Types that compare equal are of the same type |
| `TypeOrder.DeclarationOrder` | src/types.h:23-56 | The order compares kinds in the order of their declaration |
| `Widening.FitsIntoSound` | src/types.cpp:601-632 | Implicit widening loses nothing: every value of the source type is a value of the target type |
| `Widening.MisfitWitness` | src/types.cpp:601-632 | Refusing to widen is never too strict: some value of the source type is no value of the target type |
| `Widening.FitsIntoIsInclusion` | src/types.cpp:601-632 | On integers, strings and nested tuples of them, fitting is inclusion of the sets of values, in both directions |
| `Widening.FitsIntoReflexive` | src/types.cpp:601-632 | Every type, of any kind, fits into itself |
| `Widening.FitsIntoTransitive` | src/types.cpp:601-632 | Widening in two steps is allowed only where one step is, for types of any kind |
| `Widening.FitsIntoAntisymmetric` | src/types.cpp:601-632 | Two types fit into each other if and only if they are equal up to the sign flags of strings |
| `Widening.MutualFitIsEqual` | src/types.cpp:318-321 | On types whose strings have no sign, as the program makes them, two types fit into each other if and only if they are equal |
| `Widening.IntegerTypeIsLeast` | src/ast/integer_types.cpp:9-21 | The type chosen for a literal contains it and fits into every unsigned type that contains it |
| `Widening.SignedIntegerTypeIsLeast` | src/ast/integer_types.cpp:38-53 | The signed type chosen for a literal fits into exactly the signed types that contain the literal |
| `Widening.SignedOverloadsAgree` | src/ast/integer_types.cpp:23-53 | Choosing fails exactly for the literals that no signed type contains, and both overloads choose alike |
| `Layout.CreateRecord` | src/struct.cpp:63-101 | The record has the given names and types; its offsets are aligned, in order and disjoint, and no in-order aligned layout places any field earlier or ends earlier; its alignment is the greatest of its fields, or 1; the padded flag is set exactly when some field does not begin at the end of the one before |
| `Layout.GreedyIsLayout` | src/struct.cpp:76-92 | Every field starts at a multiple of its alignment and not before the end of the previous one |
| `Layout.GreedyIsLeast` | src/struct.cpp:76-92 | Optimality: each offset and each end is a lower bound for every other layout of the same fields |
| `Layout.TotalSizeIsLeast` | src/struct.cpp:94-98 | The size is the least multiple of the record's alignment that any layout of the fields fits into |
| `Layout.AlignmentNormal` | src/types.cpp:530-546 | Every alignment is 1, 2, 4 or 8, and it divides the size of every type that is not a byte array |
| `Layout.AlignmentIsNatural` | src/types.cpp:530-546 | At every depth, the alignment is what the parts need: 1 for bytes, its own size for a number or address of up to 8 bytes and 8 for longer ones, the greatest of the fields for a record, and that of its elements for an array, unless it takes two bytes |
| `Layout.AlignIsGreatest` | src/struct.cpp:71-98 | The alignment of a record is that of one of its fields and not below any other, or 1 |
| `Layout.ZeroAlignmentIff` | src/types.cpp:530-546 | An alignment is zero exactly for types of size zero that are no byte array, record or tuple |
| `Layout.EmptyTypes` | src/types.cpp:530-546 | An array without elements has alignment 0; an empty string and an empty tuple have alignment 1 |
| `Layout.LeavesAreAligned` | src/types.cpp:530-546 | At any depth of records, tuples and arrays, a number of 1, 2, 4 or 8 bytes and a pointer lie at a multiple of their own size, and longer values at a multiple of 8 |
| `SameSize.SameSizeFitsBack` | src/types.cpp:581-632 | A type that fits into another one of the same sizes at every depth loses nothing on the way back |
| `SameSize.SameStruct` | src/struct.cpp:63-101 | Records whose fields agree in size and alignment get the same offsets, size and alignment |
| `SameSize.EqualLayout` | src/types.cpp:130-170 | Types that compare equal are laid out alike at every depth |
| `SameSize.CopyIffNothingWidens` | src/types.cpp:581-599 | Of a type that fits into another one, the recursive size test holds exactly when the fit is mutual, and exactly when all fields lie at the same offsets, so bytes may be copied |
| `Codec.WellBuiltIsWellLaid` | src/struct.cpp:63-101 | Records built by the layout allocator keep each field inside the record and after the previous one |
| `Codec.StringLength` | src/types_format.cpp:93-106 | The decoded string ends before the first NUL, or fills the buffer |
| `Bytes.ByteWeight` | src/util/opaque.h:149-160 | A number in memory counts its byte k with 256 to the k, on a little-endian host |
| `Bytes.TruncateIsTruncated` | src/types_format.cpp:145-275 | A quotient leaves a rest that is smaller than the divisor and has the sign of the dividend |
| `Bytes.TruncatedUnique` | src/types_format.cpp:145-275 | No other number does, for positive divisors |
| `Aggregates.MinMaxValue` | src/util/stats.h:21-42 | The loop with its flag computes the extreme of the cells that are set |
| `Aggregates.ExtremeIsBest` | src/util/stats.h:21-42 | The extreme is a value that is set, and none that is set is better; it is 0 if none is |
| `Aggregates.StatsValue` | src/util/stats.h:44-71 | The loop computes the wrapped total and count and their quotient, or 0 for no samples |
| `Aggregates.ExtremeOfAll` | src/util/stats.h:21-42 | Where each processor holds the best of its samples, the combined value is the best of all samples |
| `Aggregates.StatsOfAll` | src/util/stats.h:44-71 | Where each processor holds the sum and number of its samples, the statistics in range are those of all samples |
| `RoundTrip.ReduceOne` | src/types_format.cpp:145-207 | Summing over a single processor is the identity |
| `PerProcessor.ReduceIsSum` | src/util/stats.h:11-19 | For any words, one after the other in n bytes each, the combined value is their ordinary sum modulo 256 to the n |
| `PerProcessor.CountOfAll` | src/types_format.cpp:145-147 | Where each processor holds the number of its samples, the number printed is that of all samples modulo 2^64, divided and truncated |
| `PerProcessor.SumOfAll` | src/types_format.cpp:208-212 | Where each processor holds the sum of its samples, the number printed is the sum of all samples, if it fits into 64 bits of its sign, divided and truncated |
| `PerProcessor.IntegerOfAll` | src/types_format.cpp:180-207 | An integer of 8, 16, 32 or 64 bits is printed as the sum of its parts, divided and truncated, if sum and divisor fit into its width |
| `PerProcessor.ZeroDivisorIff` | src/types_format.cpp:180-207 | A signed integer is divided by zero exactly for the multiples of the number of its values, an unsigned one exactly for 0 |
| `PerProcessor.ExtremeOfAllShown` | src/types_format.cpp:213-228 | Where each processor holds the best of its samples, the least or greatest of all samples is printed, divided and truncated, or 0 |
| `PerProcessor.StatsOfAllShown` | src/types_format.cpp:243-275 | Where each processor holds the sum and the number of its samples, an average shows the truncated average of all samples, divided, and statistics show their number, that average and their sum |
| `RoundTrip.EnumShown` | src/types_format.cpp:148-179 | An enum value is shown by the name that its definition has for it, or in decimal, with its number |
| `RoundTrip.EnumRoundTrip` | src/types_format.cpp:148-179 | A stored enum value comes back with its label and its number |
| `RoundTrip.StoreThenFormat` | src/types_format.cpp:21-275 | Decoding inverts encoding: for every nesting of scalars, combined aggregates, arrays, tuples and records laid out in order, and any earlier content of the buffer, the stored value is returned, its full strings with the trailer |
| `Decoding.FormatThenStore` | src/types_format.cpp:21-275 | The other direction: every buffer of the size of a type of whole integers, strings, combined aggregates, arrays, tuples and records is decoded without an error to a value that can be stored, and storing that value again changes no byte, booleans aside |
| `RoundTrip.ShownIff` | src/types_format.cpp:93-106 | A stored value comes back unchanged exactly when the trailer is empty or no string in it, at any depth, fills its buffer |
| `RoundTrip.FullStringGainsTrailer` | src/types_format.cpp:93-106 | A string is returned unchanged exactly when it is shorter than its buffer or the trailer is empty |
| `RoundTrip.NoSliceEscapes` | src/types_format.cpp:107-144 | Decoding a buffer at least as long as the type never slices outside it, for any content |
| `KeySort.LexicographicTransitive` | src/types_format.cpp:418-459 | Comparing keys field by field is transitive, so the sorts are well defined |
| `KeySort.LastToFirst` | src/types_format.cpp:428-479 | A stable sort by one field after a stable sort by later fields is a stable sort by all of them, first field first |
| `KeySort.StableSortPermutes` | src/types_format.cpp:428-479 | Sorting keeps every entry with its multiplicity |
| `KeySort.StableSortUnique` | src/types_format.cpp:428-479 | There is only one stable sort: order and tie order determine the result |
| `KeySort.InsertionSortStable` | src/types_format.cpp:418-426 | The sort standing for the library's stable sort meets the library's contract |
| `KeySort.Entries.StableSort` | src/types_format.cpp:418-426 | Sorts the entries in place by one field and keeps ties in their order |
| `KeySort.Entries.SortByKey` | src/types_format.cpp:428-479 | For any number of tuple fields the entries end up in lexicographic order of all sortable fields, full ties in their original order; the internal error is raised exactly for integer widths the sort cannot read |
| `KeyMeaning.StoredNumber` | src/types_format.cpp:418-426 | Reading the key at an integer field gives the stored number, its bits taken as signed |
| `KeyMeaning.TerminatedStrings` | src/types_format.cpp:452-459 | Different strings compare alphabetically, whatever follows their terminators |
| `KeyMeaning.FullString` | src/types_format.cpp:452-459 | A string without a terminator is told apart from a terminated one as the strings are |
| `KeyMeaning.ShownStrings` | src/types_format.cpp:93-106 | The trailer printed after full strings leaves their order as it is |
| `KeyMeaning.StoredStringsIff` | src/types_format.cpp:452-459 | Two stored strings, truncated or not, compare as the strings do exactly when they differ or the bytes after their terminators are the same |
| `KeyMeaning.TupleCompares` | src/types_format.cpp:428-459 | Comparing two stored tuples by the sort fields is comparing, first field first, their values and, where a string is the same in both, what follows its terminator; padding is never compared |
| `KeyMeaning.TupleComparesIff` | src/types_format.cpp:428-459 | Two tuples are ordered as their values exactly when no equal strings differ after their terminators before the values do, or those bytes happen to agree with the fields after them |
| `KeyMeaning.SortedByValues` | src/types_format.cpp:428-479 | For any unused bytes in either key: of two sorted keys the values descend exactly when the keys first differ after the terminator of the same string and the fields after it descend |
| `KeyMeaning.SortedBySingleValue` | src/types_format.cpp:418-426 | Keys that are a single integer or string come in the order of their values, whatever their unused bytes |
| `KeyMeaning.BeforeIff` | src/types_format.cpp:452-459 | Bytes compare alphabetically: less is a proper beginning, or a smaller byte where they first differ |
| `KeyMeaning.CompareValuesMeans` | src/types_format.cpp:418-459 | Values are out of order exactly when a greater number precedes a smaller one, or a string one that is alphabetically before it |
| `KeyMeaning.PoisonedTailBreaksOrder` | src/ast/passes/codegen_llvm.cpp:1365-1380 | The same string over zeros and over bytes of 255 puts (A, 2) before (A, 1) |
| `KeyMeaning.UnsignedOrderIff` | src/types_format.cpp:438-451 | Two unsigned numbers are sorted by value exactly when their highest bits agree |
| `LogBuckets.EdgesAgree` | src/types_format.cpp:290-308 | The computed edge equals the index on the whole overlap from 2^k to 2^(k+1) |
| `LogBuckets.EdgeForm` | src/types_format.cpp:290-308 | Every power of two from 2^k on is divided into 2^k intervals of equal width |
| `LogBuckets.EdgeStep` | src/types_format.cpp:290-308 | Edges strictly increase, and from 2^k on the width of a bucket times 2^k is at most its lower edge |
| `LogBuckets.EdgesIncrease` | src/types_format.cpp:290-366 | A later bucket has a greater edge |
| `LogBuckets.BucketUnique` | src/types_format.cpp:325-366 | No sample lies in two buckets |
| `LogBuckets.FindHighestBit` | src/ast/passes/codegen_llvm.cpp:3614-3734 | The halving search finds the highest set bit of every positive 64-bit number |
| `LogBuckets.Log2Bucket` | src/ast/passes/codegen_llvm.cpp:3614-3734 | Every signed 64-bit sample gets the bucket whose printed edges enclose it |
| `LogBuckets.UnsignedSampleIff` | src/ast/passes/codegen_llvm.cpp:3614-3734 | An unsigned 64-bit sample is counted in its interval exactly when it is below 2^63, and otherwise among the negative ones |
| `LogBuckets.BucketRange` | src/bpfmap.cpp:174-178 | The highest bucket of an int64 lies within the 65 * 32 cells of the vector for k up to 5 |
| `LogBuckets.EdgeFits` | src/types_format.cpp:290-308 | No edge of a reachable bucket exceeds 2^63, so no 64-bit shift overflows |
| `LogBuckets.LastEdge` | src/types_format.cpp:290-308 | The highest edge is exactly 2^63 |
| `LogBuckets.LabelDenotesEdge` | src/types_format.cpp:290-308 | The label, read with its K to E suffix, is the edge without rounding |
| `LinearBuckets.LinearBucketExact` | src/ast/passes/codegen_llvm.cpp:3737-3843 | A signed 64-bit sample lies between the printed edges of a bucket if and only if it is the bucket computed for it |
| `LinearBuckets.UnsignedLinearIff` | src/ast/passes/codegen_llvm.cpp:3737-3843 | An unsigned 64-bit sample is counted in its interval exactly when it is below 2^63, and otherwise below all bounds |
| `LinearBuckets.LinearLabelDenotes` | src/types_format.cpp:368-389 | The label, read with its suffix, is the number it was made for; it is a plain number exactly for steps that are no multiple of 1024, and otherwise carries the number in 64 bits |
| `Histograms.Indices` | src/types_format.cpp:310-323 | Finds the first and last count that is positive as an int, and nothing visible lies outside them |
| `Histograms.EdgePrimitiveDenotes` | src/types_format.cpp:335-364 | The printed form of an upper edge denotes the edge in both number ranges |
| `Histograms.BuildHistogram` | src/types_format.cpp:325-366 | The counts are those of the visible range at their own upper edges, and the lower bound is the edge before the first one |
| `LinearHistograms.BuildLinearHistogram` | src/types_format.cpp:391-415 | For any bounds: the counts of the visible range, labelled with the edges computed in 32-bit ints, up to the narrowed upper bound |
| `Histograms.ConservationExact` | src/types_format.cpp:310-366 | Trimming keeps the total if and only if every non-zero count lies between visible ones |
| `Histograms.SmallCountsBracketed` | src/types_format.cpp:310-323 | Counts below 2^31 are always kept |
| `Histograms.LargeCountLost` | src/types_format.cpp:315-316 | A bucket of 2^31 samples prints as nothing |
| `Histograms.TallyTotal` | src/ast/passes/codegen_llvm.cpp:3614-3734 | The buckets partition the int64 samples: their counts add up to the number of samples |
| `Histograms.PrintedHistogram` | src/types_format.cpp:325-366 | The printed histogram counts each of fewer than 2^31 samples once, in the interval that contains it |
| `LinearHistograms.LinearTallyTotal` | src/ast/passes/semantic_analyser.cpp:1136-1198 | With the bounds that the analyser accepts, linear buckets partition the samples within 1002 cells |
| `LinearHistograms.AcceptedFitsIff` | src/ast/passes/semantic_analyser.cpp:1166-1193 | Bounds that the analyser accepts fit the 1002 cells exactly when the number of buckets does not wrap in an int |
| `LinearHistograms.EdgesRightIff` | src/types_format.cpp:391-415 | For accepted bounds, every histogram is printed at the edges of the bounds if and only if the last edge is below 2^31 |
| `LinearHistograms.NarrowedBounds` | src/types_format.cpp:568-569 | With the bounds 0 and 10000000000 and the step 1000000000, a sample below 2000000000 is shown without an upper edge |
| `LinearHistograms.PrintedLinearHistogram` | src/types_format.cpp:391-415 | The printed linear histogram counts each of fewer than 2^31 samples once, in its own bucket, and shows the bucket's edges if the last edge is below 2^31 |
| `HistogramData.CollectHistogram` | src/bpfmap.cpp:152-184 | Dense vectors hold, per key prefix and bucket, the sum over processors of the last entry for it and zero elsewhere; the first failing entry decides the error; removed keys are skipped |
| `HistogramData.CollectionConserves` | src/bpfmap.cpp:152-184 | With distinct kernel keys, the cells of a key add up to all its entries |
| `RecordedHistograms.HistogramMap.Record` | src/ast/passes/codegen_llvm.cpp:1011-1076 | Every run of calls of hist or lhist on any processors keeps the per-processor counters a count of the samples of each key and bucket |
| `RecordedHistograms.HistogramMap.Collect` | src/bpfmap.cpp:152-184 | The collected vector of a key is the tally of all its samples, in 64 bits, and exactly the keys with samples have one |
| `RecordedHistograms.HistogramMap.Print` | src/types_format.cpp:511-584 | End to end, for both kinds: every key recorded under has one histogram, which shows its samples in their own buckets; fewer than 2^31 samples are each counted once, and shown between their edges, of a linear histogram if the last edge is below 2^31 |
| `RecordedHistograms.DescribesNext` | src/ast/passes/codegen_llvm.cpp:1029-1036 | One increment on one processor counts exactly one more sample, in exactly one bucket of one key |
| `RecordedHistograms.CountsAreTally` | src/bpfmap.cpp:174-181 | The cells of a key are the tally of the log or linear buckets in a vector of 2080 or 1002 cells |
| `RecordedHistograms.CollectedTally` | src/bpfmap.cpp:152-184 | Summed over the processors, the entries of a key are the tally of its samples |
| `RecordedHistograms.MostRecorded` | src/types_format.cpp:537-584 | The keys kept are those with the most samples |
| `TopEntries.TotalCounts` | src/types_format.cpp:537-545 | Histogram entries are ranked by the sum of their buckets modulo 2^64 |
| `TopEntries.PrintMap` | src/types_format.cpp:681-706 | The skipping loop prints the last `top` entries of the sorted map, or all |
| `TopEntries.PrintHistograms` | src/types_format.cpp:552-584 | It prints the greatest entries for every map that the kernel can hold, and in general exactly when nothing is dropped or there are at most 2^32 entries |
| `TopEntries.KeptAreGreatest` | src/types_format.cpp:646-706 | The entries kept are those of the greatest ranks: ascending, as many as asked for, and none below a dropped one |
| `TopEntries.KeptRanksUnique` | src/types_format.cpp:646-706 | Which numbers are printed does not depend on how the sort orders ties |
| `RankedMaps.RankIsPrinted` | src/types_format.cpp:145-275 | The 64-bit number that the sort takes from the bytes of a count, sum, average, statistics entry, unsigned extreme or 64-bit integer is the number printed, for every divisor |
| `RankedMaps.GreatestPrinted` | src/types_format.cpp:646-706 | For these types the printed numbers ascend and none that is dropped is above one that is printed |
| `RankedMaps.NarrowTopIff` | src/types_format.cpp:649-655 | Of integers, the greatest are kept in every arrangement that the sort may leave if and only if they have 64 bits, nothing is dropped, or all are the same |
| `RankedMaps.NarrowTopFails` | src/util/stats.h:11-19 | Of the one-byte integers 3 and 1, the 1 may be printed and the 3 dropped |
| `SignedExtremes.RankIsValueIff` | src/types_format.cpp:656-660 | The unsigned extreme that an entry is ranked by is its signed value exactly when the processors' values have the same sign |
| `SignedExtremes.OvertakesIff` | src/types_format.cpp:656-660 | Of two entries ranked in order, the values are in the other order exactly when the cells of the first overtake those of the second |
| `SignedExtremes.MixedTopIff` | src/types_format.cpp:656-706 | The entries kept are those with the greatest printed values if and only if no entry dropped overtakes one kept, whatever signs the processors' values have |
| `SignedExtremes.OneSignTopIff` | src/types_format.cpp:656-706 | Where each entry's processors have values of one sign, the entries kept are those with the greatest printed values if and only if all are kept or all printed values have one sign |
| `SignedExtremes.MixedTopFails` | src/types_format.cpp:656-660 | Of the cells -1 and 5 and the cells -2 and 7, the 5 is printed and the 7 dropped |
| `TimeSeries.SeriesUnique` | src/types_format.cpp:481-509 | The description of a series leaves one result for each window and values |
| `TimeSeries.ValueOnce` | src/types_format.cpp:481-509 | Each value of the window appears once, at its epoch, and every other point is a hole |
| `TimeSeries.EmptyIffUnderflow` | src/types_format.cpp:605-611 | A series is empty exactly when the window has no epochs or reaches below zero, and never longer than the window |
| `TimeSeries.UnderflowLosesValues` | src/types_format.cpp:605-611 | A value at epoch 5 with ten intervals is not shown |
| `TimeSeries.BuildTimeSeries` | src/types_format.cpp:481-509 | A gap-free run of epochs up to the last one that starts at the first value of the window; the loop ends below the greatest 64-bit epoch |
| `TimeSeries.LatestEpoch` | src/types_format.cpp:598-604 | The greatest epoch of a key |
| `TimeSeries.FormatTimeSeries` | src/types_format.cpp:589-634 | All keys are shown over one window, which ends at the latest epoch of any key |
| `TimeSeries.CollectTimeSeries` | src/bpfmap.cpp:186-220 | Each key keeps the first reading of each epoch, and nothing else |
| `TimeSeries.CollectedUnique` | src/bpfmap.cpp:186-220 | The readings alone determine what is collected |
| `TimeSeriesRing.NormAdd` | src/util/tseries.cpp:38-64 | Wrapping to 64 bits at every addition gives the wrapped total |
| `TimeSeriesRing.NormExact` | src/util/tseries.cpp:38-64 | Wrapping shifts a number into the range of signed or unsigned 64-bit integers by a multiple of 2^64 |
| `TimeSeriesRing.AtIsBetween` | src/ast/passes/codegen_llvm.cpp:1084-1145 | The calls of epoch e are, in order, those from e intervals on and before e + 1 intervals |
| `TimeSeriesRing.StoreSummarizes` | src/ast/passes/codegen_llvm.cpp:1219-1292 | One call turns the summary of an epoch's earlier calls into the summary including it, for every aggregation, and a new epoch starts afresh |
| `TimeSeriesRing.StoredHolds` | src/ast/passes/codegen_llvm.cpp:1135-1292 | After a call, its bucket describes the latest epoch that fell into it, on the calling processor |
| `TimeSeriesRing.OtherHolds` | src/ast/passes/codegen_llvm.cpp:1135-1292 | The other buckets keep describing all calls |
| `TimeSeriesRing.Reduce` | src/util/tseries.cpp:15-77 | The reduced value is that of the latest epoch of any processor, combined over the cells of that epoch only |
| `RecordedSeries.FoldCombines` | src/util/tseries.cpp:24-65 | Combining the processors' cells of an epoch aggregates exactly the calls of that epoch on all processors |
| `RecordedSeries.RecordedIff` | src/ast/passes/codegen_llvm.cpp:1084-1145 | A call belongs to epoch e exactly when its time is at least e and less than e + 1 intervals |
| `RecordedSeries.BucketReduces` | src/util/tseries.cpp:15-77 | A reduced bucket is its latest epoch, with the sum, truncated average, extreme or newest value of all calls of that epoch |
| `RecordedSeries.Ring.Record` | src/ast/passes/codegen_llvm.cpp:1077-1312 | Every run of calls on any processors keeps the ring a description of all calls made |
| `RecordedSeries.Ring.Collect` | src/bpfmap.cpp:186-220 | The collected values are aggregates of all calls of their epochs, and every bucket's latest epoch is among them |
| `RecordedSeries.RecordedShown` | src/bpfmap.cpp:186-220 | A call inside the window is found under its epoch, since no other epoch of the window shares its bucket |
| `RecordedSeries.Ring.Print` | src/types_format.cpp:589-634 | End to end: the printed series shows, for each epoch of the window, the aggregate of all calls of that epoch on all processors, and a hole exactly where there was none |
| `PassPipeline.PassContext.Get` | src/ast/pass_manager.h:64-73 | A lookup fails exactly when no object of the type is present |
| `PassPipeline.PassContext.Put` | src/ast/pass_manager.h:90-108 | An object already present is never replaced; references are not owned |
| `PassPipeline.PassContext.Teardown` | src/ast/pass_manager.cpp:11-20 | Owned objects are destroyed in the reverse of their order of creation |
| `PassPipeline.SoundSnoc` | src/ast/pass_manager.cpp:39-66 | Accepting an acceptable pass keeps the list sound: inputs come from earlier passes, outputs are unique |
| `PassPipeline.PassManager.Add` | src/ast/pass_manager.cpp:39-66 | A pass is accepted exactly when its inputs are available and its output is new, and the error names an offending type |
| `PassPipeline.PassManager.RunPass` | src/ast/pass_manager.h:258-281 | A pass fails in a lookup exactly when an input is absent; otherwise it stores its output exactly when its body succeeds |
| `PassPipeline.OneMorePass` | src/ast/pass_manager.h:258-281 | A successful pass extends the context by exactly its output |
| `PassPipeline.PassManager.Run` | src/ast/pass_manager.h:337-353 | For every accepted list and every behaviour of the bodies: no lookup fails, a prefix runs, an error is returned exactly when the last executed pass failed, and otherwise the context holds exactly the outputs of the executed passes |
| `PassPipeline.ConsumersDieFirst` | src/ast/pass_manager.cpp:11-20 | An object is destroyed before every object that its pass took as input |
| `FormatRegex.ZeroAsWidth` | src/format_string.cpp:25-26 | Giving a captured zero back to the width never rescues a match |
| `FormatRegex.Stuck` | src/format_string.cpp:25-26 | After a part gives up a character, the rest of the expression cannot match |
| `FormatRegex.MatchIsGreedy` | src/format_string.cpp:25-26 | A deterministic greedy scan finds the same match, group by group, as backtracking, on every string |
| `FormatStrings.Find` | src/format_string.cpp:59-68 | A match, the text before it and the text after it partition the string, and a match is never empty |
| `FormatStrings.ParseFrom` | src/format_string.cpp:54-81 | There is always one more fragment than specifiers |
| `FormatStrings.FormatString.Parse` | src/format_string.cpp:54-81 | The loop with its moving end of the last match computes the recursive parse, or throws on the same number |
| `FormatRoundTrip.ParseSpec` | src/format_string.cpp:25-44 | A rendered specifier is recovered with all flags, width, precision and modifiers, in front of any text it does not swallow |
| `FormatRoundTrip.MatchIffText` | src/format_string.cpp:25-26 | The expression matches exactly the texts of the written-out grammar: optional flags `-`, `+`, space, `#` and `0` in this order, a width and a precision in digits or `*`, the letters `hlLjzt`, and one of `diouxXeEfFgGaAcspn%`, `rh`, `rx` or `r`, the last one not in front of `h` or `x` |
| `FormatRoundTrip.ParseText` | src/format_string.cpp:28-44 | Every text of the grammar is read as it is written: flags, width, precision, with `*` or nothing as the defaults, modifiers and specifier; it is an error exactly when a number exceeds 2147483647 |
| `FormatRoundTrip.ParseTextual` | src/format_string.cpp:62-80 | Every character at which no specifier begins is text, a stray percent sign, too; with the two rows above, this determines the parse of every string |
| `FormatRoundTrip.OneLetter` | src/format_string.cpp:25-81 | A percent sign and one character are an escaped percent sign, one specifier for each of `diouxXeEfFgGaAcspnr`, and plain text for every other character |
| `FormatRoundTrip.ParseEscaped` | src/format_string.cpp:62-73 | Escaped text is recovered as plain text, wherever it stands |
| `FormatRoundTrip.ParseSwallowed` | src/format_string.cpp:21-26 | An `r` in front of `h` or `x` comes back as another specifier |
| `FormatRoundTrip.ParseInvertsPrint` | src/format_string.cpp:54-81 | Parsing inverts the canonical printer, for specifiers with the written-out letters, if and only if no fragment after an `r` begins with `h` or `x` |
| `Numerals.NumeralDenotes` | src/format_string.cpp:35-40 | The digits of a number denote it |
| `TypeGraph.FindsOwnKindIff` | src/btf.cpp:1130-1147 | A record takes the fields of a type of its own name, and of its own kind exactly when it is a struct or no struct bears the name |
| `TypeGraph.UnionFindsStruct` | src/btf.cpp:1139-1142 | A union with a struct of the same name takes the struct's members |
| `RecordFields.ApplyTwice` | src/btf.cpp:1161-1197 | Going through the members of a record once more, when it has all its fields, changes nothing |
| `TypeFrames.TypeEvolves` | src/btf.cpp:415-469 | On any graph, a finished import changes no record's size and no fields that a record already had, and gives fields only to records that it leads to |
| `ImportState.RecordClosed` | src/btf.cpp:1130-1147 | Once a record has its fields and everything that its members lead to short of it is settled, so is everything that leads through it |
| `ImportCorrect.TypeCorrect` | src/btf.cpp:415-469 | On any graph, cyclic or not, and any table whose records with fields are complete: a finished import returns the type that `DeclaredTypes.TypeDescribes` is about and settles everything that it leads to |
| `DeclaredTypes.TypeDescribes` | src/btf.cpp:415-469 | The imported type describes the declared one, behind any qualifiers and at every depth: booleans, width and sign of integers, unsigned enums, records by kind and name, pointers with all their tags, arrays with their count, and arrays of single bytes as strings with room for a terminator |
| `DeclaredTypes.DescribesUnique` | src/btf.cpp:415-469 | Only one type describes a declared type |
| `DeclaredTypes.NumberKept` | src/btf.cpp:427-434 | An integer of up to 64 bits behind any qualifiers keeps its width and its sign; an enum of up to 8 bytes is an unsigned integer of its size |
| `ImportCorrect.RecordCorrect` | src/btf.cpp:1130-1147 | Afterwards the record has the fields it must have, whether it had them before or not |
| `ImportCorrect.MembersCorrect` | src/btf.cpp:1161-1197 | The loop leaves exactly the gathered fields, although the import of a member's type may fill the same record in between |
| `EarlyCalls.NoLoopKept` | src/btf.cpp:1135-1137 | Filling further records makes no loop |
| `ImportEnds.NoLoopEnds` | src/btf.cpp:1130-1147 | On any graph and any table, an import ends if no call that it leads to comes back to itself by early calls |
| `ImportEnds.EndsLater` | src/btf.cpp:1130-1147 | A type without a loop can still be imported after any other import |
| `ImportLoops.EarlyIsFirstField` | src/btf.cpp:1161-1197 | Where every member has a type, the early call of a record is the import of the type of its first field |
| `ImportLoops.EndsIffNoLoop` | src/btf.cpp:1130-1197 | Where every member has a type, an import ends if and only if no call that it leads to comes back to itself by early calls |
| `LoopExamples.SelfPointerEnds` | src/btf.cpp:444-450 | A record with a pointer to itself can be imported |
| `LoopExamples.SelfArrayNeverEnds` | src/btf.cpp:451-454 | For a record whose only member is a pointer to an array of itself, no number of nested calls is enough |
| `LoopExamples.LaterArrayEnds` | src/btf.cpp:1135-1137 | With another field in front, the calls are still cyclic and the import ends |
| `LoopExamples.ClearedLoopEnds` | src/btf.cpp:1169-1176 | A graph with a member without a type that has a loop of early calls and whose import ends |
| `TypeImport.Importer.SkipModifiers` | src/btf.cpp:390-398 | The loop finds a type that is no modifier and whose import is that of the first one |
| `TypeImport.Importer.GetTypeTags` | src/btf.cpp:400-413 | The loop collects the tags of the chain up to a type that is no tag |
| `TypeImport.Importer.LookupOrAdd` | src/struct.cpp:198-205 | An existing record is never replaced |
| `TypeImport.Importer.AddFieldTo` | src/struct.cpp:150-162 | The first field of a name stays |
| `TypeImport.Importer.GetStype` | src/btf.cpp:415-469 | The method with its loops computes the type and the table of the recursive import, wherever that ends |
| `TypeImport.Importer.ResolveRecord` | src/btf.cpp:1130-1147 | A record that has fields, or that no type is found for, is left alone; otherwise its members are gone through |
| `TypeImport.Importer.ResolveMembers` | src/btf.cpp:1161-1197 | The loop, which stops at a member without a type, fills the table as the recursion does |
| `TypeImport.Importer.ImportType` | src/btf.cpp:415-469 | Wherever the import ends, on any graph and after any other imports: the type that describes the declared one is returned; exactly the records that it leads to have the fields they must have, and no other record receives any; no record changes its size; no record of the table is left half filled |
| `FlattenedFields.AddAllFirsts` | src/struct.cpp:139-162 | Added one by one, exactly the first fields of each name remain |
| `FlattenedFields.ClearedIff` | src/btf.cpp:1169-1176 | Fields are discarded exactly when a member without a type lies on some anonymous path |
| `FlattenedFields.ExpectedFields` | src/btf.cpp:1161-1197 | Unless one is discarded, a record must have exactly the members that an anonymous path leads to, at the sum of the offsets on the path, one for each name and that one the first |
| `FlattenedFields.ImportedFields` | src/btf.cpp:1161-1197 | The fields that an import leaves in the table are those, each with the type that describes the type of its member |
| `FlattenedFields.MissingMemberClears` | src/btf.cpp:1169-1176 | One member without a type leaves the record without fields |
| `ImportedLayout.FieldPosition` | src/btf.cpp:1149-1197 | An imported field has the name, type and width of the last member on its anonymous path, and its byte offset and bit offset make up the sum of the bit offsets on the path |
| `ImportedLayout.ImportedBitfieldReads` | src/btf.cpp:1149-1197 | Reading an imported bitfield, at any anonymous depth, reads its bits of the outermost record |
| `ImportedLayout.SizeKeptIff` | src/btf.cpp:415-469 | An imported type has its declared size if and only if it contains, other than behind pointers, no array of bytes, no integer above 64 bits and no record known with another size |
| `ImportedLayout.CharMatrixGrows` | src/btf.cpp:451-466 | An array of 2 arrays of 4 characters takes 8 bytes and is imported with 10 |
| `DeclaredValues.NumberFormatted` | src/types_format.cpp:180-207 | The bytes of an integer of 1, 2, 4 or 8 bytes are printed as their two's complement or unsigned number |
| `DeclaredValues.ImportedValue` | src/btf.cpp:415-469 | Printing the bytes of a number, boolean, pointer or nested array of them at the imported type shows the value that the debug information declares: two's complement exactly for integers declared signed, and each array element at its own place |
| `Bitfields.MaskIsLowBits` | src/struct.cpp:14-48 | Masking keeps exactly the low bits |
| `Bitfields.ExtractIsStructBits` | src/struct.cpp:14-48 | Reading, shifting and masking yields the bits of the struct at the field's position |
| `Bitfields.ReadIsMinimal` | src/struct.cpp:14-48 | The read ends at the byte of the last bit, and no shorter one covers the field |
| `Bitfields.DescriptionsAgree` | src/dwarf_parser.cpp:221-246 | A bitfield described by BTF, by its data bit offset or by its storage unit extracts the same value without reading past its storage |
| `Bitfields.LocationMustAgree` | src/dwarf_parser.cpp:373-404 | With both a member location and a data bit offset, the right bits are read exactly when the location is the byte of the first bit |
| `Registry.PreferredIsLast` | src/functions.cpp:123-131 | The function a name means is unique, and it is the last registered |
| `Registry.FunctionRegistry.Add` | src/functions.cpp:43-70 | A registration is refused exactly when the name already has a function that is not builtin; nothing else changes |
| `Registry.FunctionRegistry.Get` | src/functions.cpp:102-158 | The preferred function is returned exactly when it accepts the arguments, and the error always has a candidate to name |
| `Registry.AcceptedValuesFit` | src/functions.cpp:73-90 | Every value of an accepted argument is a value of its parameter, strings aside |
| `Registry.AcceptedIff` | src/functions.cpp:73-90 | An integer or tuple is accepted exactly where every value of it is a value of the parameter; a string exactly by strings and by pointers to single bytes; other types, tuples aside, exactly by equal ones |
| `Registry.RegisteredIsPrefix` | src/functions.cpp:43-70 | After any run of registrations a name has its registrations up to the first that is not builtin |
| `Registry.AtMostTwoIff` | src/functions.cpp:119-121 | The assertion on the number of candidates fails exactly for names whose first two of at least three registrations are builtins |
| `Registry.ThreeFunctions` | src/functions.cpp:119-121 | Two builtins and a script function of one name are all registered |
| `Attachment.AttachProbes` | src/bpftrace.cpp:720-758 | The two passes attach the working probes of a prefix of the plan; they end early exactly for an exit signal or, where missing probes are errors, a failed attempt |
| `Attachment.PlanIsEveryProbe` | src/bpftrace.cpp:720-758 | Each probe is attempted once |
| `Attachment.AttachedOnce` | src/bpftrace.cpp:720-758 | No probe is attached twice, and a failed attempt costs only its own probe |
| `Attachment.FireInDeclarationOrder` | src/bpftrace.cpp:720-758 | Some kinds of probes fire last attached first, and all others first attached first; whichever attempts work, the attached probes of each class fire in the order of declaration |
| `BufferPages.ClosestIsClosest` | src/bpftrace.cpp:1462-1473 | The result is a power of two at minimal distance among all powers of two, the lower of two |
| `BufferPages.ClosestBounds` | src/bpftrace.cpp:1462-1473 | Twice the argument is at most three times the result, which is at most four times the argument |
| `BufferPages.PerCpuPages` | src/bpftrace.cpp:1475-1504 | The page count per processor is a power of two unless it is zero, which happens exactly when the memory in bytes is less than a page for each processor |
| `BufferPages.NoPages` | src/bpftrace.cpp:1490-1503 | 200 kilobytes of free memory give 128 processors no pages |
| `BufferPages.SharedPages` | src/bpftrace.cpp:1477-1484 | A shared buffer has at least one page for each processor and at least the configured pages |
| `BufferPages.MemoryBound` | src/bpftrace.cpp:1490-1503 | By default all buffers together take at most four thirds of 16544 kilobytes |
| `BufferPages.DefaultPages` | src/bpftrace.cpp:1490-1503 | Without configured pages, the result is the power of two closest to the whole pages in the free memory, held between 256 and 16544 kilobytes, or in a processor's share of it; it is 0 exactly when there is no whole page |
| `BufferPages.ConfiguredPages` | src/bpftrace.cpp:1485-1489 | Configured pages are divided among the processors, rounded up, and then to the closest power of two |
| `BufferPages.EnoughPages` | src/bpftrace.cpp:1475-1488 | All processors together get at least two thirds of the configured pages |

## Left out

- Foreign calls: system calls, libbpf, bcc, blazesym, LLVM, reading of ELF files, and polling.
- AST classes and compiler passes, apart from the generated code of `hist`, `lhist` and `tseries`.
- Register tables, probe name tables, configuration keys and compatibility tables: finite lookups.
- Codec: the kinds that need foreign calls (stacks, symbols, users, addresses, timestamps, cgroups) are
  not decoded; for strings, the scan for the NUL is within the buffer, which the program does not check.
- Aggregates.StatsValue: signed sums are taken to wrap.
- RankedMaps.RankIsPrinted: maps of other types are sorted by key; per-CPU maps of integers are not
  modelled.  Divisors are 32-bit and not zero.
- DeclaredValues.ImportedValue: records, whose fields `FlattenedFields.ImportedFields` is about, and
  arrays of single bytes, which are imported with room for a terminator.
- Record types: named records are values in `SizedTypes`, so a record that contains a pointer to
  itself is modelled in `TypeImport` only, where types refer to the table of records by name.
- Layout.CreateRecord: `padded` and the offsets are exact; `size` and `align` are narrowed to
  32-bit integers as in the program, and alignment results assume a total below 2^31.
- Layout.GreedyIsLayout: fields with alignment zero, which the allocator divides by, are excluded.
- KeySort.Entries.StableSort: the library's stable sort is modelled by insertion sort.
- TopEntries.KeptAreGreatest: scalar maps, which return their only value, are not modelled;
  `std::ranges::sort` is any ascending arrangement.
- TimeSeries.FormatTimeSeries: keys are not put in order, and epochs are not turned into timestamps.
- RecordedSeries.Ring.Record: the clock of a processor does not run backwards and has left epoch 0, so
  the interval is shorter than the time on the clock; each update is uninterrupted, a new key starts as
  zeros on the other processors, and no epoch has 2^63 calls.
- TypeImport.Importer.ImportType: it is called only where it ends.  Records that other importers
  register under the same names, and the wrap-around of member offsets at 32 bits, are not modelled.
- ImportLoops.EndsIffNoLoop: with members that have no type, only the sufficient half holds
  (`LoopExamples.ClearedLoopEnds`).
- LinearHistograms.BuildLinearHistogram: products and sums of ints are taken to wrap, and bounds of
  2^63 and more, which the generated code reads as negative, are not modelled.
- RecordedHistograms.HistogramMap.Record: each increment is uninterrupted, a new entry starts as zeros
  on the other processors, and the map is never full.
- TypeGraph.FindsOwnKindIff: all BTF objects are one numbering, with one lookup by name and kind.
- Bitfields.ExtractIsStructBits: big-endian hosts, reads wider than the field's type, and DWARF
  attributes whose form cannot be read are not modelled.
- FormatStrings.FormatString.Parse: the object after a thrown exception is unspecified.
- Checking arguments against a format string and rendering them are not modelled.
- HistogramData.CollectHistogram: the collected entries are taken as given; concurrent changes of
  the map appear only as keys that are gone at lookup.
- Registry.FunctionRegistry.Get: the texts of error messages and hints.
- Attachment.AttachProbes: signal probes, child processes and the benchmark mode.
- BufferPages.ClosestIsClosest: logarithms are exact; floating-point rounding of large page counts
  is not modelled.
