# xylose: verified model of the sequential helpers

xylose is a C++ library of physics-simulation utilities. This project models
its small sequential pieces in Dafny and proves what they promise:

- **Pivot partition of the octree sort** (`examples/nsort/basic/partition.h`).
  - `partition` is a two-cursor scan that swaps elements in place around a
    pivot on one coordinate.
  - `quadpartition` and `octpartition` compose `std::partition`, taken with
    the contract of ISO/IEC 14882, section [alg.partitions].
  - Module `Partition`, on a Dafny `array`.
- **Piecewise waveform** (`src/xylose/timing/Timing.h`).
  - A `Timing` object holds timing elements laid end to end.
  - `set_time` selects the element whose interval holds the time and
    evaluates it at the time relative to the element's start.
  - A stack saves and restores times.
  - Module `Timing`, with class `Timing.Timing`.
- **Data sets** (`src/xylose/data_set.h`).
  - Scaled points are inserted into a `std::map` (the first entry for a key
    stays), and units are checked on conversion.
  - The XML printer writes one `<data x='..' y='..'/>` line per entry.
  - Module `DataSet`.
- **Reaction equations** of the XML test suite
  (`src/xylose/xml/test/Doc.cpp`).
  - Terms are ordered by particle name only, and set members are joined
    with `" + "`.
  - The two sides are joined with `"  -->  "`.
  - The test's expected output is proved.
  - Module `Reaction`.
- **Dimension descriptors** (`src/xylose/Dimensions.hpp`).
  - Which template specialisation a `Dimensions<d0, d1, d2>` selects decides
    its number of dimensions, its `reverse` and its printer.
  - Module `Dimensions`.
- **Argument dispatch of the XML query tool**
  (`examples/xml/testXML.cpp`).
  - A `--help` anywhere stops the run.
  - Otherwise each argument is one query, whose first character may select
    the query kind.
  - Module `QueryDispatch`.

Shared modules:

- `Ordered` models the ordered standard containers (`std::map`, `std::set`).
  A container is the sequence of its entries in iteration order. `insert`
  adds an entry only when no entry with an equivalent key is present.
- `Text` models decimal output of integers, joining with a separator, and
  the lexicographic `operator<` of `std::string`.
- `Wrappers` holds the `Option`, `Outcome` and `Result` values that stand for
  absent XML children and thrown exceptions.

Inputs the model takes as values:

- The result of an XML query is an input value: a node's attributes and
  children, already read.
- How a stream prints a `double` is the function parameter `show`.
- A timing element's `getValue` is the function field `Element.value`.

## Model

| member | source | states |
|---|---|---|
| Partition.Partition | examples/nsort/basic/partition.h:12-38 | The result lies in `[Ai, Af)`, and the range is permuted in place with nothing outside it touched. If no swap happened (the range is unchanged) and the first key is not at most the pivot while the last is above it, the result is `Ai` and the range is one-sided. Otherwise the result is the partition point: keys ≤ pivot before it, keys > pivot from it on. Put another way, the result is the partition point unless every key is ≤ pivot, and then it is `Ai`. |
| Partition.PartitionScan | examples/nsort/basic/partition.h:14-27 | The scan permutes the range, leaves keys ≤ pivot before the meeting point and keys > pivot after it, and counts zero swaps exactly when the range is left unchanged. After a swap, or when the last key is > pivot, the key at the meeting point is > pivot too. |
| Partition.ScanStep | examples/nsort/basic/partition.h:16-26 | One round of the outer loop keeps both cursors' invariants and changes only the positions between the new cursors. It swaps exactly when the cursors have not met; a swap puts a key ≤ pivot at `left` where a key > pivot was and a key > pivot at `right`. Without a swap, the cursors meet on a key > pivot unless `right` did not move. |
| Partition.SkipAtMost | examples/nsort/basic/partition.h:18 | The left cursor passes only keys ≤ pivot and stops at a key > pivot unless it reaches `right`. |
| Partition.SkipAbove | examples/nsort/basic/partition.h:21 | The right cursor passes only keys > pivot and stops at a key ≤ pivot unless it reaches `left`. |
| Partition.Swap | examples/nsort/basic/partition.h:24 | `iter_swap` exchanges the two positions and keeps the multiset of elements. |
| Partition.PartitionCorrected | examples/nsort/basic/partition.h:29-37 | With line 36 returning `Af` when every key is ≤ pivot, the result is always the partition point of a permutation of the range, in `[Ai, Af]` (see Findings). |
| Partition.SplitAtUnique | examples/nsort/basic/partition.h:29-37 | A range has a single partition point, so the corrected result is determined by the rearranged range. |
| Partition.AllAtMostPivotExample | examples/nsort/basic/partition.h:29-37 | On two elements with key 0 and pivot 1, `partition` as written returns `Ai`, which is not the partition point; the corrected one returns `Af`. |
| Partition.Below | examples/nsort/basic/partition.h:48-50 | `partition_position_pred<T, dir>(pivot)`: the element's coordinate in `dir` is strictly below the pivot's; no contract of its own, see the next row and the quadrant ranks. |
| Partition.ScanAndPredicateDifferAtPivot | examples/nsort/basic/partition.h:48-50 | `partition_position_pred` (strict `<`) and the scan's `<=` disagree exactly on keys equal to the pivot. |
| Partition.StdPartition | examples/nsort/basic/partition.h:67 | `std::partition`: the range is a permutation of itself, the elements satisfying the predicate come before the returned point, and none of the rest do. |
| Partition.StdPartitionStep | examples/nsort/basic/partition.h:67 | One step of that partition keeps the two parts separated and the multiset unchanged. |
| Partition.QuadPartition | examples/nsort/basic/partition.h:60-71 | The range is permuted into ascending quadrant order: below `p` in `diry` first, then, within each half, below `p` in `dirx` first. |
| Partition.OctPartition | examples/nsort/basic/partition.h:73-87 | The range is permuted into ascending octant order: `dirz` first, then the quadrant order in each half. |
| Timing.ValueAt | src/xylose/timing/Timing.h:153 | The value is the selected element's waveform at the absolute time minus that element's start; no contract of its own, its properties are those of Select proved in the rows below. |
| Timing.Select | src/xylose/timing/Timing.h:133-146 | The element used is the first whose cumulative end is ≥ t, or the last one when there is none. |
| Timing.SelectUnique | src/xylose/timing/Timing.h:135-145 | That description picks a single element. |
| Timing.BeyondTotalUsesLast | src/xylose/timing/Timing.h:135-153 | A time past the total duration uses the last element, at a relative time beyond that element's own duration. |
| Timing.SelectedElementHoldsTime | src/xylose/timing/Timing.h:138-153 | Within the total duration, the relative time lies within the selected element's own interval. |
| Timing.Timing.constructor | src/xylose/timing/Timing.h:88-91 | There are no elements, the value and the time are 0, and the stack is empty. |
| Timing.Timing.GetVal | src/xylose/timing/Timing.h:94 | Returns the current value. |
| Timing.Timing.GetTime | src/xylose/timing/Timing.h:97 | Returns the current absolute time. |
| Timing.Timing.PushTime | src/xylose/timing/Timing.h:100-103 | Pushes `t` on the stack and changes nothing else. |
| Timing.Timing.PushCurrentTime | src/xylose/timing/Timing.h:108-110 | Pushes the current time; the value and the time stay. |
| Timing.Timing.PopTime | src/xylose/timing/Timing.h:115-120 | Needs a saved time. Sets the time to the most recently saved one and then pops it. When `set_time` throws, the stack stays as it was. |
| Timing.Timing.IncrTime | src/xylose/timing/Timing.h:122-124 | Exactly `set_time(getTime() + dt)`. |
| Timing.Timing.SetTime | src/xylose/timing/Timing.h:130-154 | The time is set to `t` even when the call throws. Without elements it throws and the value is kept; otherwise the value is the selected element evaluated at `t` minus that element's start. |
| Timing.PushSetPopRestores | src/xylose/timing/Timing.h:100-124 | After setting the time to `t`, pushing it, moving by any `dt` and popping, the time is `t` again, the value is the one at `t` both times, the stack is the one from before the push, and the elements are unchanged. |
| Ordered.Insert | src/xylose/data_set.h:126 | After `insert`, the container is still in ascending key order and holds only old entries and the new one. Every lookup answers as on the old entries followed by the new one, so an entry already present wins. |
| Ordered.InsertAll | src/xylose/data_set.h:121-127 | Inserting a sequence in order gives ascending order, and every lookup answers as on the old entries followed by the sequence. |
| Ordered.FindAppend | src/xylose/data_set.h:126 | A lookup in old-then-new entries finds the old entry when there is one. |
| Ordered.FindFirstOccurrence | src/xylose/xml/test/Doc.cpp:197-201 | Among entries sharing a key, the first one is the one found. |
| Ordered.AscendingUnique | src/xylose/data_set.h:65 | An ordered container is determined by the answers to its lookups. |
| Ordered.AscendingKeysUnique | src/xylose/data_set.h:65 | An ordered container holds at most one entry per key. |
| Text.Decimal | src/xylose/xml/test/Doc.cpp:165-166 | A printed count is a non-empty string of digits, with no leading zero unless the count is zero, that denotes the count. |
| Text.DecimalInjective | src/xylose/Dimensions.hpp:90-93 | Different numbers print differently. |
| Text.JoinSnoc | src/xylose/xml/test/Doc.cpp:175-178 | Writing one more member adds exactly one separator, before that member. |
| Text.StrLessIsStrictTotalOrder | src/xylose/xml/test/Doc.cpp:159-161 | `std::string`'s `operator<` is irreflexive, transitive and total. |
| DataSet.RealLessIsStrictTotalOrder | src/xylose/data_set.h:65 | The map's key order on `double`s, as exact reals, is a strict total order. |
| DataSet.PointText | src/xylose/data_set.h:69-72 | One point prints as `<data x='X' y='Y'/>`, each number as the stream prints it; no contract of its own, its use is stated by DataSetTextIsLines. |
| DataSet.PrintDataSet | src/xylose/data_set.h:76-83 | The printing loop writes the opening tag and a newline, then each entry in key order followed by a newline, then the closing tag. |
| DataSet.DataSetTextIsLines | src/xylose/data_set.h:69-83 | The output is exactly the lines `<dataset>`, one `<data x='X' y='Y'/>` per entry in ascending key order, and `</dataset>`, joined by newlines, with no newline at the end. |
| DataSet.ParsePoint | src/xylose/data_set.h:105-109 | A point is the `@x` and `@y` attributes of its node; no contract of its own, its use is stated by ScaledPointsScale. |
| DataSet.ScaledPointsScale | src/xylose/data_set.h:105-125 | Each point inserted takes x from `@x` times `@xscale` and y from `@y` times `@yscale`. |
| DataSet.ParseDataSet | src/xylose/data_set.h:113-128 | The result is `out` with the scaled points inserted in document order; `out` is not cleared first. |
| DataSet.ParsedEntries | src/xylose/data_set.h:114-126 | For every key, an entry already in `out` stays; otherwise the first point of the node with that key is kept; a key neither had is absent. |
| DataSet.FirstPointWins | src/xylose/data_set.h:121-126 | Of several points with the same scaled x, a fresh data set keeps the first in document order. |
| DataSet.ConvertDataSet | src/xylose/data_set.h:88-100 | Fails exactly when some quantity is not in the expected units. Otherwise the result is a fresh data set of the coefficient pairs inserted in order, so the first pair wins a shared key. |
| Reaction.TermLess | src/xylose/xml/test/Doc.cpp:159-161 | Terms are ordered by particle name alone; no contract of its own, see the next row. |
| Reaction.EquivalentIffSameParticle | src/xylose/xml/test/Doc.cpp:159-161 | Two terms are equivalent under `operator<` exactly when they name the same particle, whatever their counts. |
| Reaction.TermText | src/xylose/xml/test/Doc.cpp:163-168 | A term prints as its count and a space, only when the count is above 1, then its particle; no contract of its own, its inverse is the next row. |
| Reaction.ReadTermText | src/xylose/xml/test/Doc.cpp:163-168 | A printed term reads back as the term, with every count ≤ 1 (zero and negatives included) reading back as 1, because only counts above 1 are printed. |
| Reaction.PrintTermSet | src/xylose/xml/test/Doc.cpp:170-181 | The printing loop writes the members in ascending particle order, with `" + "` between neighbours and nothing before the first or after the last; the empty set writes nothing. |
| Reaction.EquationText | src/xylose/xml/test/Doc.cpp:183-186 | An equation prints as its in-set, `"  -->  "` and its out-set; no contract of its own, its output is pinned by FourthEquationText. |
| Reaction.ParseTerm | src/xylose/xml/test/Doc.cpp:188-192 | The count is the `n` child, 1 when there is none; the particle is the `P` child. |
| Reaction.ParseTermSet | src/xylose/xml/test/Doc.cpp:194-202 | The result is `s` with the parsed terms inserted in document order, still ordered by particle. |
| Reaction.SideOf | src/xylose/xml/test/Doc.cpp:194-202 | One side of an equation, parsed into a fresh set, is ordered by particle with at most one term per particle. |
| Reaction.ParseEquation | src/xylose/xml/test/Doc.cpp:204-208 | Both sides of a parsed equation are sets ordered by particle name. |
| Reaction.FirstTermWins | src/xylose/xml/test/Doc.cpp:194-202 | Of several `T` nodes with the same particle, the set keeps the first in document order, and only that one. |
| Reaction.SideOfTwo | src/xylose/xml/test/Doc.cpp:159-161 | Two terms with different particles end up in particle order, whichever comes first in the document. |
| Reaction.FourthEquationText | src/xylose/xml/test/Doc.cpp:211-221 | `Eq[4]` prints exactly `87Rb + 2 e^-  -->  87Rb + 2 e^-`, whatever the order of its `T` nodes and whether the rubidium count is absent or at most 1. |
| Dimensions.NDims | src/xylose/Dimensions.hpp:37-83 | `ndims` is 1 exactly when all three arguments are equal. It is 2 exactly when the third equals the first and the second differs. It is 3 exactly when the third differs from the first, even if the second equals the first. |
| Dimensions.Dirs | src/xylose/Dimensions.hpp:37-83 | The selected specialisation declares as many directions as its `ndims`. |
| Dimensions.DirsDetermine | src/xylose/Dimensions.hpp:37-83 | The directions a specialisation exposes, with the defaults for the rest, give back its template arguments. |
| Dimensions.FromDirsExposes | src/xylose/Dimensions.hpp:37-83 | Writing one, two distinct, or three directions whose last differs from the first exposes exactly those directions. |
| Dimensions.Reverse | src/xylose/Dimensions.hpp:46-82 | The `reverse` typedef of each specialisation; no contract of its own, see the next two rows. |
| Dimensions.ReverseReversesDirs | src/xylose/Dimensions.hpp:46-82 | `reverse` exposes the same directions in the opposite order and has as many dimensions. |
| Dimensions.ReverseInvolution | src/xylose/Dimensions.hpp:46-82 | Applying `reverse` twice gives back the descriptor. |
| Dimensions.Show | src/xylose/Dimensions.hpp:87-112 | The printer of each specialisation: `ndims`, `D-{`, the declared directions separated by commas, `}`; no contract of its own, see the example rows and ShowInjective. |
| Dimensions.ShowThreeExample | src/xylose/Dimensions.hpp:88-95 | `<0,1,2>` prints `3D-{0,1,2}`: commas, no spaces. |
| Dimensions.ShowThreeRepeatedExample | src/xylose/Dimensions.hpp:88-95 | `<0,0,2>` prints `3D-{0,0,2}`. |
| Dimensions.ShowTwoExample | src/xylose/Dimensions.hpp:98-104 | `<2,10>` prints `2D-{2,10}`. |
| Dimensions.ShowOneExample | src/xylose/Dimensions.hpp:107-112 | `<1>` prints `1D-{1}`. |
| Dimensions.ShowInjective | src/xylose/Dimensions.hpp:87-112 | Different descriptors print differently. |
| QueryDispatch.Classify | examples/xml/testXML.cpp:140-153 | The `switch` on an argument's first character; no contract of its own, see the next three rows. |
| QueryDispatch.ClassifyModified | examples/xml/testXML.cpp:140-149 | An argument starting with `d`, `r` or `q` selects a DATASET, RAW or QUANTITY query on the rest of the argument. |
| QueryDispatch.ClassifyKeepsExpression | examples/xml/testXML.cpp:140-153 | Only a leading `d`, `r` or `q` is stripped. Any other argument, the empty one included, is a QUANTITY query on the whole argument. |
| QueryDispatch.DefaultIsQuantity | examples/xml/testXML.cpp:150-152 | An argument without a modifier means the same as with `q` in front. |
| QueryDispatch.RunArguments | examples/xml/testXML.cpp:127-154 | The usage is shown exactly when some argument after the program name is `--help`. Otherwise there is one query per argument, in argv order, and argv[0] is never one. |

## Left out

- The thread pool and task cache (`examples/threadcache/`): their implementation is not part of this model, and they are concurrency code.
- `src/xylose/integrate/rk4.h` and `src/xylose/integrate/detail/Derivs.h`: floating-point numerics and call forwarding.
- `src/xylose/timing/element/PythonExpr.h`: foreign calls into Python.
- `src/xylose/compat/unistd.hpp`: operating-system shims. `src/__namespace__.h`: documentation only.
- The example drivers `examples/timing/testtiming.cpp`, `examples/xml/simple.cpp` and `examples/binning/extended_2d/multi/testbin.cpp`: file and stream output and random sampling.
- Floating point:
  - Times, durations, coordinates, scales and keys are exact reals, not IEEE doubles, so rounding in the cumulative sums of `set_time` and in scaling is not modelled.
  - How a stream prints a `double` is the parameter `show`.
- A timing element's `getValue` is an arbitrary function of the relative time (`Element.value`). The element classes are not part of this model.
- libxml2 and XPath behind `xml::Doc` and `xml::Context`: query results are input values. `query` with a default is modelled only where the code uses one (the count of a term).
- `Timing` methods that return `Timing &` for chaining return nothing in the model.
- Partition:
  - Iterators are indices into one array, and `dref` is folded into the `position` function.
  - `partition_species_pred` (partition.h:53-58) is used by nothing modelled.
  - The default argument `p = 0.0` of `quadpartition` and `octpartition` (partition.h:64, :80) is not modelled: the pivot vector is always passed.
- Partition.StdPartition: the model's own partition loop stands in for the library's. Only the contract of section [alg.partitions] is stated; the order within each part and the positions of equal elements are left open, as the standard leaves them.
- Partition.QuadPartition: the comment at partition.h:66 names `dirx` for the first split, but the code splits on `diry` first. The model follows the code.
- DataSet.ConvertDataSet:
  - `physical::Quantity::assertMatch` is not part of this model; it is taken as "the quantity's units equal the expected units".
  - Conversions between compatible units are not modelled.
  - The thrown `physical::exception` is the `Failure` result.
- The `out` reference parameters of `parse_item` are an input value plus a result.
- `data_set<A, B>` is modelled with both `A` and `B` as exact reals (standing for `double`). Its use with `physical::Quantity` keys and values (testXML.cpp:22) is not modelled; conversion from quantities is modelled by DataSet.ConvertDataSet.
- QueryDispatch.RunArguments: it returns the queries to run instead of calling `showResults`. `usage`, `prepareCalculator`, the `XML_FILENAME` environment variable and all printing are not modelled. Arguments are strings without their terminating NUL, so an empty argument is the empty string.
- Dimensions.Show: `ndims` and the directions are `unsigned int`, modelled as naturals below 2^32; nothing computes with them.

## Findings

| source | as written | input that shows it | evidently intended | confidence | as-written member | corrected member |
|---|---|---|---|---|---|---|
| examples/nsort/basic/partition.h:29-37 | With no swap and not (first key ≤ pivot and last key > pivot), `partition` returns `Ai`, including when every key is ≤ pivot. The comment says this means "everything was on one side", yet `Ai` then puts every element on the wrong side of the split. | A range of two elements with key 0 and pivot 1: the scan meets at index 1, and `partition` returns 0, while both elements (key 0) lie after the returned point; the partition point is 2. | Return the partition point in every case: keep `Ai` when every key is above the pivot, as the comment intends, but return `Af` when every key is ≤ pivot. In every other case the code already returns the partition point. | medium (the callers in the octree sort are not part of this model); not executed | Partition.AllAtMostPivotExample | Partition.PartitionCorrected |
