# Proofs about five PostgreSQL contrib modules

A Dafny model of the data structures of `hstore`, `intarray`, `fuzzystrmatch`
(`levenshtein`), `ltree` and `cube` in PostgreSQL 9.0, and of the GiST index
that three of them plug into.  It states what these modules are for and proves
it for all inputs: packed values behave like maps, fast algorithms equal simple
definitions, and an index scan returns the rows a sequential scan returns, after
any history of insertions.

To check all files together: `dafny verify dfyconfig.toml`.

## How it is laid out

| files | subject |
|---|---|
| `Common`, `Int32`, `Order` | optional values and the allocation limit, 32-bit wrap-around (the build passes `-fwrapv`), three-way comparison, lexicographic orders |
| `HstoreLayout`, `HstoreBuild` | the packed layout of an hstore, its decoding, and the macros that write it into memory |
| `HstorePairs`, `HstoreOps`, `HstoreMerge` | duplicate removal and packing, lookups with a cached bound, the merge loops |
| `HstoreText`, `HstoreGrammar`, `HstoreErrors` | printer and parser, the grammar the parser accepts, and what its errors mean |
| `HstoreCmp`, `HstoreCompat` | the btree comparison, the in-place upgrade of old values |
| `IntArrays`, `IntRanges`, `IntSets`, `BoolQuery` | allocation by an int size, range compression, sorted integer sets, Boolean queries with back links |
| `Levenshtein` | the two-row dynamic program and the edit distance |
| `Gist`, `GistInsert` | trees of keys, search, page splits; insertion and whole runs of it; the scan with its stack |
| `IntGist`, `IntBig`, `Ltree`, `LtreeGist`, `Cube`, `CubeGist` | four operator classes over that theory |

Two specifications carry most of the weight.  An hstore is a
`map<string, Option<string>>`: every operation is tied to the map operation it
stands for, and the packed form is shown to be unique for its map.  An operator
class is a relation *above* between keys plus a leaf and an inner test:
`GistInsert.OpClass` collects its support functions, and `GistInsert.Supported`
says of their results, where they return one, just what the contracts of the
methods that compute them ensure (`Unites`, `Adjusts`, `Halves`).
`SupportedIsSound` of each class adds the laws of its keys, `ClassExists` shows
that there is such a class for every size of pages, `GistInsert.After` holds of every run of insertions of
a sound class, and `IndexAgrees` of each class compares the scan with the
operator.

## Where the code does not keep a promise

Each of these is stated with the exact condition under which it does.

- Range compression picks the wrong gap when two neighbours are 2^31 or more
  apart (`IntRanges.OptimalIff`, `IntRanges.HugeGapWitness`).
- Decompression of a range that ends at INT_MAX does not end
  (`IntRanges.RangeLoopEnds`), and the size of its result is computed in an int,
  so that too short a block can be granted for it (`IntRanges.Decompress`,
  `IntRanges.OverrunWitness`).
- An inner key of more than 134217724 elements cannot be compressed
  (`IntGist.Store`, `IntGist.StoreRefuses`), so that two rows of 199 elements can
  lead to a key that cannot be widened for a third (`IntGist.RowsRaise`,
  `IntGist.WideningFails`).  The union of many dense keys is refused, or granted
  too short a block (`IntGist.Union`, `IntGist.UnionOverruns`).
- A leaf array of 200 elements or more is read back as ranges
  (`IntGist.ReadAsRanges`), past its end when their number is odd
  (`IntGist.StoreLeaf`).
- Equality with an empty array finds no row through either intarray index
  (`IntGist.EmptyEquality`, `IntBig.EmptyEquality`).
- A Boolean query is false of an empty array, but the gist__int_ops index runs it
  on one like on any other (`IntGist.IndexAgrees`, `IntGist.EmptyRowAccepted`).
- A Boolean query with a right operand of 2^15 items or more is linked wrongly
  (`BoolQuery.LinkQuery`, `BoolQuery.WrongOperand`).
- Edit costs can wrap when they are not negative and above 8388607
  (`Levenshtein.NonNegativeCostLimit`), and costs of either sign when their
  magnitude is above 4210752 (`Levenshtein.CostLimit`).
- `ltree_compare` gives the wrong sign for a path 14654 levels below another
  (`Ltree.DepthLimit`), so that an index scan for an ordering operator goes wrong
  from 14654 levels of the query on, even where the operator itself is right
  (`LtreeGist.IndexAgreesIff`, `LtreeGist.RootLost`).
- `cube_contains_v0` ignores dimensions the contained box lacks, so it is not
  containment of point sets (`Cube.InsideIffContains`), and a contained-by scan
  can lose rows (`CubeGist.HeldByIndexIff`, `CubeGist.LostRow`).
- `cube_cmp_v0` is no order on boxes of mixed dimension (`Cube.TransitiveIff`).
- The shortcut of `hstoreUpgrade` takes some old values for new ones
  (`HstoreCompat.FastPathOnOld`, `HstoreCompat.LeftoverMisread`).
- A printed hstore of more than 16777216 pairs, or with a word of 2^29 bytes or
  more, cannot be read back (`HstoreText.ParsePrint`, `HstoreText.HstoreIn`).
- The comment in the page splits says that offsets come out in order; the
  intarray splits deal them in the order of cost, and nothing here relies on it.

## Model

| member | source | states |
|---|---|---|
| `IntRanges.CompressInternal` | postgresql-9.0.0/contrib/intarray/_int_gist.c:185-228 | fewer than 200 elements pass unchanged; otherwise the block for twice as many is refused, too short or granted, each exactly when, and if it is granted the result is exactly 100 disjoint ascending ranges, a greedy choice of gaps, that cover every element and keep the outer bounds; they cover the fewest integers any 100 ranges can, if and only if no two neighbours are 2^31 or more apart |
| `IntRanges.MergeRanges` | postgresql-9.0.0/contrib/intarray/_int_gist.c:194-224 | the in-place loop of doubling and closing the smallest gap ends with a greedy choice of 99 surviving gaps |
| `IntRanges.MergeOnce` | postgresql-9.0.0/contrib/intarray/_int_gist.c:207-218 | one round removes one gap by memmove and keeps the array a greedy compression of the same key |
| `IntRanges.SmallestGap` | postgresql-9.0.0/contrib/intarray/_int_gist.c:209-215 | the scan finds a first smallest gap, compared as 32-bit ints, whatever candidate the last round left |
| `IntRanges.Double` | postgresql-9.0.0/contrib/intarray/_int_gist.c:198-205 | doubling in place from the top down makes every element a range of its own |
| `IntRanges.SomeSmallGap` | postgresql-9.0.0/contrib/intarray/_int_gist.c:207-215 | pigeonhole: while more than 100 ranges are left, some gap is below the initial minimum, so a candidate always exists |
| `IntRanges.GreedyIsOptimal` | postgresql-9.0.0/contrib/intarray/_int_gist.c:194-224 | without a wrapped gap, keeping the 99 widest gaps is optimal among all covers by at most 100 ranges |
| `IntRanges.WidestLeaveOutMost` | postgresql-9.0.0/contrib/intarray/_int_gist.c:194-224 | exchange argument: no set of as many gaps leaves out more integers than the widest ones |
| `IntRanges.BrokenNeedRanges` | postgresql-9.0.0/contrib/intarray/_int_gist.c:194-224 | a cover that leaves holes in n gaps needs at least n + 1 ranges |
| `IntRanges.CoverLowerBound` | postgresql-9.0.0/contrib/intarray/_int_gist.c:194-224 | how many integers any cover must hold, from the gaps it breaks |
| `IntRanges.HugeGapIsMerged` | postgresql-9.0.0/contrib/intarray/_int_gist.c:209-215 | a gap of 2^31 or more wraps negative, counts as smallest and is closed |
| `IntRanges.HugeGapNotOptimal` | postgresql-9.0.0/contrib/intarray/_int_gist.c:194-224 | the result is then never optimal: an explicit better cover exists |
| `IntRanges.OptimalIff` | postgresql-9.0.0/contrib/intarray/_int_gist.c:194-224 | both directions together: optimal if and only if no gap is huge |
| `IntRanges.HugeGapWitness` | postgresql-9.0.0/contrib/intarray/_int_gist.c:194-224 | a key of 200 elements that is not compressed optimally, however ties are broken |
| `IntRanges.GreedyExists` | postgresql-9.0.0/contrib/intarray/_int_gist.c:194-224 | every key of 200 elements or more has a greedy compression, and it covers the key |
| `IntRanges.StoredSizeIs` | postgresql-9.0.0/contrib/intarray/_int_gist.c:194-224 | how many integers the compressed key covers is the span less its 99 widest gaps, however ties are broken |
| `IntRanges.InternalSize` | postgresql-9.0.0/contrib/intarray/_int_tool.c:271-283 | the number of integers the ranges of a key cover, wrapped to an int |
| `IntRanges.Decompress` | postgresql-9.0.0/contrib/intarray/_int_gist.c:231-294 | a short key is itself; the ranges of a longer one end in exactly one of four ways, each with its exact condition: the allocation is refused, the block granted is too short for what is written, the loop does not end because the last range ends at INT_MAX, or the result is the strictly increasing list of exactly the integers covered; a key of odd length is read past its end |
| `IntArrays.BytesIff` | postgresql-9.0.0/contrib/intarray/_int_tool.c:228-244 | the int size passed to the allocator is accepted exactly for the lengths called granted; it is the size needed for the lengths called sized and too small for the others |
| `IntArrays.Allocate` | postgresql-9.0.0/contrib/intarray/_int_tool.c:228-260 | a block is refused exactly when the length is not granted, and has room for it exactly when it is sized |
| `IntArrays.DoubledIff` | postgresql-9.0.0/contrib/intarray/_int_tool.c:247-260 | an array that exists can be doubled if and only if it has at most 134217724 elements |
| `IntRanges.OverrunWitness` | postgresql-9.0.0/contrib/intarray/_int_gist.c:185-294 | a key of 201 elements whose ranges cover 1073741907 integers and for which a block of 356 bytes is granted, however ties are broken |
| `IntRanges.ExpandRange` | postgresql-9.0.0/contrib/intarray/_int_gist.c:282-285 | one range is written behind the elements before it, none twice |
| `IntRanges.RangeLoopEnds` | postgresql-9.0.0/contrib/intarray/_int_gist.c:283-283 | the loop over one range ends if and only if the upper bound is below INT_MAX |
| `IntSets.Isort` | postgresql-9.0.0/contrib/intarray/_int_tool.c:196-226 | a sorted permutation in place; the result says whether any element occurs twice |
| `IntSets.Unique` | postgresql-9.0.0/contrib/intarray/_int_tool.c:285-306 | of a sorted array, the strictly increasing list of the same elements remains at the front |
| `IntSets.PrepareArr` | postgresql-9.0.0/contrib/intarray/_int.h:42-47 | the strictly increasing listing of the elements of any array |
| `IntSets.InnerContains` | postgresql-9.0.0/contrib/intarray/_int_tool.c:11-47 | subset test of two prepared arrays, false when either is empty |
| `IntSets.InnerOverlap` | postgresql-9.0.0/contrib/intarray/_int_tool.c:49-80 | of two sorted arrays, true exactly when the sets intersect |
| `IntSets.InnerUnion` | postgresql-9.0.0/contrib/intarray/_int_tool.c:82-137 | of two sorted arrays, repetitions included, the strictly increasing list of the union, if and only if a block for both lengths together is granted in full; otherwise which way that fails |
| `BoolQuery.FindOprnd` | postgresql-9.0.0/contrib/intarray/_int_bool.c:410-438 | for every well-formed postfix operand, sets exactly its links, in place, and returns the position before it |
| `BoolQuery.LinkQuery` | postgresql-9.0.0/contrib/intarray/_int_bool.c:488-489 | the stored query is linked as intended if and only if every right operand has fewer than 2^15 items |
| `BoolQuery.StoredIffFit` | postgresql-9.0.0/contrib/intarray/_int_bool.c:410-438 | the int2 links equal the intended ones if and only if they fit |
| `BoolQuery.StoredLook` | postgresql-9.0.0/contrib/intarray/_int_bool.c:410-438 | two small queries, item by item |
| `BoolQuery.WrongOperand` | postgresql-9.0.0/contrib/intarray/_int_bool.c:410-438 | a query of 65538 items, true of an array by its meaning, that the stored links make false of it |
| `BoolQuery.ExecuteIsEval` | postgresql-9.0.0/contrib/intarray/_int_bool.c:272-299 | on properly linked items, execute with calcnot computes the meaning of the expression tree |
| `BoolQuery.LossyExecute` | postgresql-9.0.0/contrib/intarray/_int_bool.c:272-312 | with negations taken for true and a weaker leaf test, execute is true whenever it is true exactly; for any item array |
| `BoolQuery.ExecuteIsLossyEval` | postgresql-9.0.0/contrib/intarray/_int_bool.c:272-299 | on properly linked items, execute without calcnot computes the expression with every negation replaced by true |
| `BoolQuery.LossyIsSafe` | postgresql-9.0.0/contrib/intarray/_int_bool.c:272-312 | so no expression that holds is rejected by the lossy execution |
| `BoolQuery.CheckConditionArr` | postgresql-9.0.0/contrib/intarray/_int_bool.c:241-261 | the binary search decides membership |
| `BoolQuery.GinConsistent` | postgresql-9.0.0/contrib/intarray/_int_bool.c:343-365 | with exact membership flags, the GIN test equals the expression evaluated on the array |
| `Levenshtein.LevenshteinInternal` | postgresql-9.0.0/contrib/fuzzystrmatch/fuzzystrmatch.c:193-284 | strings of bytes: too long exactly when both are non-empty and one exceeds 255; otherwise the two-row program computes the 32-bit distance, and the least cost over all edit scripts whenever (|s| + |t|) times the largest magnitude of a cost is an int, or, for costs that are not negative, (max(|s|, |t|) + 1) times the largest cost |
| `Levenshtein.FillRow` | postgresql-9.0.0/contrib/fuzzystrmatch/fuzzystrmatch.c:246-271 | from row j-1 in one half of the buffer, row j of the full matrix in the other |
| `Levenshtein.FillCell` | postgresql-9.0.0/contrib/fuzzystrmatch/fuzzystrmatch.c:258-271 | one cell is replaced by the cheapest of three, everything else in both rows stays |
| `Levenshtein.DistIsLeastCost` | postgresql-9.0.0/contrib/fuzzystrmatch/fuzzystrmatch.c:193-284 | the recurrence is attained by some left-to-right edit script and beaten by none |
| `Levenshtein.DistIsLeastChain` | postgresql-9.0.0/contrib/fuzzystrmatch/fuzzystrmatch.c:193-284 | for non-negative costs it is also the least cost over all chains of single edits at any positions in any order |
| `Levenshtein.ExactWhenFits` | postgresql-9.0.0/contrib/fuzzystrmatch/fuzzystrmatch.c:193-284 | no int wraps when (|s| + |t|) times the largest cost is an int |
| `Levenshtein.CostLimit` | postgresql-9.0.0/contrib/fuzzystrmatch/fuzzystrmatch.c:193-284 | on all strings of at most 255 bytes the result is exact for all costs of either sign and of magnitude at most k, if and only if k is at most 4210752 |
| `Levenshtein.ExactWhenNonNegative` | postgresql-9.0.0/contrib/fuzzystrmatch/fuzzystrmatch.c:193-284 | for costs that are not negative no int wraps when (max(|s|, |t|) + 1) times the largest cost is an int |
| `Levenshtein.NonNegativeCostLimit` | postgresql-9.0.0/contrib/fuzzystrmatch/fuzzystrmatch.c:193-284 | on all strings of at most 255 bytes the result is exact for all non-negative costs of at most k, if and only if k is at most 8388607 |
| `Levenshtein.Triangle` | postgresql-9.0.0/contrib/fuzzystrmatch/fuzzystrmatch.c:193-309 | the triangle inequality for all non-negative costs |
| `Levenshtein.Symmetric` | postgresql-9.0.0/contrib/fuzzystrmatch/fuzzystrmatch.c:193-309 | exchanging the strings exchanges insertion and deletion cost |
| `Levenshtein.ZeroIffEqual` | postgresql-9.0.0/contrib/fuzzystrmatch/fuzzystrmatch.c:193-309 | at positive costs the distance is zero only for equal strings |
| `Order.StrCmpTotal` | postgresql-9.0.0/contrib/hstore/hstore_io.c:278-299 | byte order with the shorter string first on a common prefix is a total order |
| `Order.StrBelow` | postgresql-9.0.0/contrib/hstore/hstore_io.c:278-299 | it is negative if and only if one text is a proper prefix of the other or has the lower byte at the first difference |
| `Order.KeyCmpTotal` | postgresql-9.0.0/contrib/hstore/hstore_io.c:278-299 | so is the hstore order of keys, length before bytes |
| `Order.KeyBelow` | postgresql-9.0.0/contrib/hstore/hstore_io.c:278-299 | it is negative if and only if the key is shorter, or as long and lower in byte order |
| `HstoreLayout.DecodePack` | postgresql-9.0.0/contrib/hstore/hstore.h:23-74 | decoding a packed list of pairs gives the list back, with a valid layout |
| `HstoreLayout.TidyIsPack` | postgresql-9.0.0/contrib/hstore/hstore.h:23-74 | every valid layout is the packing of what it decodes to, word for word |
| `HstoreLayout.PackedLook` | postgresql-9.0.0/contrib/hstore/hstore.h:23-74 | two pairs, one of them null, word for word |
| `HstoreLayout.SameMapSamePairs` | postgresql-9.0.0/contrib/hstore/hstore.h:23-74 | pairs in strict key order are determined by the map they stand for |
| `HstoreLayout.CanonicalUnique` | postgresql-9.0.0/contrib/hstore/hstore.h:23-74 | canonical values are equal if and only if they represent the same map |
| `HstoreBuild.Builder.CopyItem` | postgresql-9.0.0/contrib/hstore/hstore.h:90-97 | appends one pair, text and entries, to the value under construction |
| `HstoreBuild.Builder.AddItem` | postgresql-9.0.0/contrib/hstore/hstore.h:103-117 | appends a key and a value or null |
| `HstoreBuild.Builder.Finalize` | postgresql-9.0.0/contrib/hstore/hstore.h:120-138 | after fewer pairs than provided for, moving the text down leaves exactly the packing of the pairs added |
| `HstorePairs.UniquePairs` | postgresql-9.0.0/contrib/hstore/hstore_io.c:307-347 | in place, the kept pairs have strictly increasing keys, are input pairs and have all the input keys; the length returned is exactly the text they need |
| `HstorePairs.FirstsDistil` | postgresql-9.0.0/contrib/hstore/hstore_io.c:307-347 | keeping the first of each run of equal keys of a sorted list does that |
| `HstorePairs.DistilledKeepsShared` | postgresql-9.0.0/contrib/hstore/hstore_io.c:278-347 | of pairs with one key, one that need not be freed is kept if there is any |
| `HstorePairs.DistilStrict` | postgresql-9.0.0/contrib/hstore/hstore_io.c:307-347 | on input that already has strictly increasing keys nothing changes |
| `HstorePairs.PackPairs` | postgresql-9.0.0/contrib/hstore/hstore_io.c:370-397 | the packing of the pairs, or the error exactly when it would not fit |
| `HstoreOps.FindKey` | postgresql-9.0.0/contrib/hstore/hstore_op.c:36-71 | finds the key at or above the lower bound, or the place where it would stand; the new bound is behind it |
| `HstoreOps.CachedBoundHarmless` | postgresql-9.0.0/contrib/hstore/hstore_op.c:36-71 | threading the bound through increasing keys, each answer is that of a full map lookup |
| `HstoreOps.ArrayToPairs` | postgresql-9.0.0/contrib/hstore/hstore_op.c:73-113 | the non-null array elements as strictly increasing keys, or the error exactly when the array has more than 26843545 elements |
| `HstoreOps.ExistsAny` | postgresql-9.0.0/contrib/hstore/hstore_op.c:154-182 | whether some key of the array is in the map, with that error |
| `HstoreOps.ExistsAll` | postgresql-9.0.0/contrib/hstore/hstore_op.c:187-215 | whether there are keys in the array and all of them are in the map, with that error |
| `HstoreOps.Contains` | postgresql-9.0.0/contrib/hstore/hstore_op.c:965-1007 | every pair of the template is in the value |
| `HstoreOps.SliceToHstore` | postgresql-9.0.0/contrib/hstore/hstore_op.c:626-683 | the map restricted to the keys of the array, canonical again, with that error |
| `HstoreMerge.RestLookup` | postgresql-9.0.0/contrib/hstore/hstore_op.c:463-557 | what every merge loop still has to write, looked up by key, is the pointwise effect of the operation on both maps |
| `HstoreMerge.RestStrict` | postgresql-9.0.0/contrib/hstore/hstore_op.c:463-557 | and its keys strictly increase |
| `HstoreMerge.Concat` | postgresql-9.0.0/contrib/hstore/hstore_op.c:463-557 | the map union in which the right operand wins, canonical again; the error exactly when both sizes together exceed the limit |
| `HstoreMerge.DeleteArray` | postgresql-9.0.0/contrib/hstore/hstore_op.c:283-358 | the map without the keys of the array, with that error |
| `HstoreMerge.DeleteHstore` | postgresql-9.0.0/contrib/hstore/hstore_op.c:363-458 | the map without the pairs that the other value has identically |
| `HstoreMerge.Delete` | postgresql-9.0.0/contrib/hstore/hstore_op.c:236-278 | the map without one key |
| `HstoreText.Cpw` | postgresql-9.0.0/contrib/hstore/hstore_io.c:1087-1099 | the text with every quote and backslash escaped, in at most twice the room |
| `HstoreText.EscapeExact` | postgresql-9.0.0/contrib/hstore/hstore_io.c:1087-1099 | it grows by one byte for each quote and backslash, and is unchanged without any |
| `HstoreText.PrintedLook` | postgresql-9.0.0/contrib/hstore/hstore_io.c:1103-1174 | a list of two pairs, one of them null, as it is printed |
| `HstoreText.HstoreOut` | postgresql-9.0.0/contrib/hstore/hstore_io.c:1103-1174 | the printed form; the bytes written stay within the precomputed buffer, and the error comes exactly when eight bytes a pair, twice the text and two bytes a null are too many |
| `HstoreText.HSParser.GetVal` | postgresql-9.0.0/contrib/hstore/hstore_io.c:55-170 | the character loop with its five states and its doubling buffer yields the word and position that ScanVal defines, or its error, the refusal of a word of 2^29 bytes or more included |
| `HstoreText.HSParser.ParsePairs` | postgresql-9.0.0/contrib/hstore/hstore_io.c:179-276 | the outer loop with its doubling array yields the raw pairs that ScanPairs defines, or its error, the refusal of more than 16777216 pairs included |
| `HstoreText.NeverTooLong` | postgresql-9.0.0/contrib/hstore/hstore_io.c:349-367 | the length checks never fail: memory for such a word runs out first |
| `HstoreGrammar.WordFound` | postgresql-9.0.0/contrib/hstore/hstore_io.c:55-170 | what the inner automaton returns is a bare or quoted word of the grammar, ending where such a word ends |
| `HstoreGrammar.WordScanned` | postgresql-9.0.0/contrib/hstore/hstore_io.c:55-170 | and it returns every word of the grammar with the characters it means |
| `HstoreGrammar.AcceptsGrammar` | postgresql-9.0.0/contrib/hstore/hstore_io.c:55-276 | the parser accepts exactly the texts of a grammar of words, pairs and lists, with words of fewer than 2^29 bytes and at most 16777216 pairs, and returns the pairs they spell, so that no such text spells two lists |
| `HstoreGrammar.SpellsNullIff` | postgresql-9.0.0/contrib/hstore/hstore_io.c:243-251 | a word is taken for null if and only if it is null but for ASCII capitals |
| `HstoreGrammar.IsSpaceIff` | postgresql-9.0.0/contrib/hstore/hstore_io.c:85-85 | white space is the bytes 9 to 13 and 32 |
| `HstoreGrammar.PlainPair` | postgresql-9.0.0/contrib/hstore/hstore_io.c:179-276 | k=>v, of any two words that need no quotes, is read as that pair, null exactly when v is null but for capitals |
| `HstoreErrors.ErrorsMean` | postgresql-9.0.0/contrib/hstore/hstore_io.c:55-276 | a syntax error names the first character behind which no text is accepted, whatever follows; an unexpected end is reported of texts that at most five more characters complete, if there is room for them |
| `HstoreText.ParsePrint` | postgresql-9.0.0/contrib/hstore/hstore_io.c:55-276 | parsing what was printed yields the same pairs, with escapes, empty strings and null against the quoted word, if and only if there are at most 16777216 pairs and no word of 2^29 bytes or more; otherwise memory runs out |
| `HstoreText.PrintDetermines` | postgresql-9.0.0/contrib/hstore/hstore_io.c:1103-1174 | values that print alike are identical, of any size |
| `HstoreText.HstoreIn` | postgresql-9.0.0/contrib/hstore/hstore_io.c:402-418 | a bad text is reported exactly as parsed; otherwise a canonical value of the pairs left after duplicates are dropped, or the memory error, and then the parser had no room or these do not fit; reading back a printed value gives the identical value if and only if the parser has room for it |
| `HstoreCmp.Cmp` | postgresql-9.0.0/contrib/hstore/hstore_op.c:1086-1163 | negative, zero or positive as the first value comes before, equals or comes after the second: an empty value first, then the lower text byte by byte, then fewer pairs, then the earlier end position, then a value against a null; zero exactly for equal maps |
| `HstoreCmp.RankCmpTotal` | postgresql-9.0.0/contrib/hstore/hstore_op.c:1086-1163 | the order that comparison follows is total |
| `HstoreCmp.RankBelow` | postgresql-9.0.0/contrib/hstore/hstore_op.c:1086-1163 | that order, said of texts and entries, is the one it follows |
| `HstoreCmp.RankDecides` | postgresql-9.0.0/contrib/hstore/hstore_op.c:1086-1163 | its ranks agree exactly for values that represent the same map |
| `HstoreCompat.ValidOldFormat` | postgresql-9.0.0/contrib/hstore/hstore_compat.c:171-229 | accepts exactly the well-formed old layouts, and tells when the size is exact; of every list of pairs as an old release lays it out, exactly when there is no padding |
| `HstoreCompat.OldPackValid` | postgresql-9.0.0/contrib/hstore/hstore_compat.c:171-229 | every list of pairs with lengths of 16 bits and keys no shorter than those before, laid out in the old way, with any leftover lengths and padding, is well formed and described by its entries |
| `HstoreCompat.OldValidIff` | postgresql-9.0.0/contrib/hstore/hstore_compat.c:171-229 | and nothing else is well formed |
| `HstoreCompat.ValidNewFormat` | postgresql-9.0.0/contrib/hstore/hstore_compat.c:119-163 | accepts exactly the layouts that pass as new, and tells when the size is exact; exact of every packed value without its flag |
| `HstoreCompat.UnflaggedPasses` | postgresql-9.0.0/contrib/hstore/hstore_compat.c:119-163 | every packed value without its flag passes as new, exactly, and setting the flag gives the packed value |
| `HstoreCompat.Convert` | postgresql-9.0.0/contrib/hstore/hstore_compat.c:328-353 | rewriting each old entry at its own address yields the two new entries of every pair |
| `HstoreCompat.UpgradeKeeps` | postgresql-9.0.0/contrib/hstore/hstore_compat.c:328-353 | the rewritten value decodes to the same keys, values and nulls and meets the new-format conditions |
| `HstoreCompat.Upgrade` | postgresql-9.0.0/contrib/hstore/hstore_compat.c:235-356 | which values are left alone, refreshed, converted or rejected; every old layout of pairs outside the shortcut becomes the packing of these pairs, and a packed value without its flag, unless it passes as old, gets it |
| `HstoreCompat.FastPathOnOld` | postgresql-9.0.0/contrib/hstore/hstore_compat.c:243-247 | the shortcut takes an old value for a new one if and only if its first value is null, has a length of 32768 or more, and the whole is shorter than 32768 |
| `HstoreCompat.LeftoverOld` | postgresql-9.0.0/contrib/hstore/hstore_compat.c:171-229 | a value of one pair, with a null value, that the test for the old format accepts |
| `HstoreCompat.LeftoverMisread` | postgresql-9.0.0/contrib/hstore/hstore_compat.c:243-247 | the shortcut leaves it alone, and it reads as a pair with an empty value |
| `Gist.NeverPruned` | postgresql-9.0.0/src/backend/access/gist/gistget.c:127-358 | on every well-keyed tree, a scan that descends where the inner test passes returns every matching row, if no covering key fails the test |
| `Gist.ExactSearch` | postgresql-9.0.0/src/backend/access/gist/gistget.c:127-358 | with an exact leaf test it returns the matching rows and nothing else |
| `Gist.KeysCover` | postgresql-9.0.0/src/backend/access/gist/gistutil.c:156-238 | every key above a row covers it |
| `Gist.PickSeeds` | postgresql-9.0.0/contrib/intarray/_int_gist.c:411-460 | the pair of entries with the largest waste among all but the last, or 1 and 2 when there is none |
| `Gist.SortOffsets` | postgresql-9.0.0/contrib/intarray/_int_gist.c:471-487 | the offsets, each once, in ascending order |
| `GistInsert.SplitPageOk` | postgresql-9.0.0/src/backend/access/gist/gist.c:926-996 | repeated splitting loses no row, adds none, and leaves pages with proper keys |
| `GistInsert.PlaceOk` | postgresql-9.0.0/src/backend/access/gist/gist.c:284-525 | placing entries on a page, with or without a split, by a test for room that is not the test for the pages of a split, keeps the rows and tells the parent what its key must cover |
| `GistInsert.Insert` | postgresql-9.0.0/src/backend/access/gist/gist.c:851-918 | one insertion along any path, splitting and widening on the way up, keeps the tree well keyed and adds exactly one row, unless a support function fails |
| `GistInsert.After` | postgresql-9.0.0/src/backend/access/gist/gist.c:261-281 | every index built by a run of insertions that returns is well keyed and holds exactly the inserted rows |
| `GistInsert.TotalRuns` | postgresql-9.0.0/src/backend/access/gist/gist.c:261-281 | where no support function fails on valid keys, nor the union of as many as the run splits a page into, the run returns |
| `GistInsert.RunNarrow` | postgresql-9.0.0/src/backend/access/gist/gist.c:926-996 | no run splits a page into more than it has inserted rows |
| `GistInsert.PlainSupported` | postgresql-9.0.0/src/backend/access/gist/gistutil.c:156-238 | any way to join two keys gives support functions that meet the contracts |
| `GistInsert.Scan` | postgresql-9.0.0/src/backend/access/gist/gistget.c:127-358 | the scan with its stack of pages returns the rows of the recursive search, each as often |
| `GistInsert.RunNeverPruned` | postgresql-9.0.0/src/backend/access/gist/gistget.c:127-358 | after any run of insertions that returns, a rechecked scan finds exactly the inserted rows that match |
| `GistInsert.RunExact` | postgresql-9.0.0/src/backend/access/gist/gistget.c:127-358 | with a leaf test that is exact on the inserted rows, without a recheck |
| `IntGist.Union` | postgresql-9.0.0/contrib/intarray/_int_gist.c:111-146 | the strictly increasing list of all elements of all entries, if and only if a block for their lengths together, added up in an int, is granted in full; otherwise which way that fails |
| `IntGist.UnionOverruns` | postgresql-9.0.0/contrib/intarray/_int_gist.c:111-146 | five keys of the greatest length are granted a block too short for them |
| `IntGist.Store` | postgresql-9.0.0/contrib/intarray/_int_gist.c:185-294 | a key written and read back: itself below 200 elements; otherwise the failures of doubling it, or what its greedy compression to 100 ranges reads as; a key comes back if and only if it is short, or can be doubled, its span less its 99 widest gaps can be allocated, and it does not touch INT_MAX |
| `IntGist.StoredKey` | postgresql-9.0.0/contrib/intarray/_int_gist.c:185-294 | a key that comes back is valid, holds every element it had and nothing outside its ends |
| `IntGist.StoreReturns` | postgresql-9.0.0/contrib/intarray/_int_gist.c:185-294 | that condition holds of any choice between equal gaps |
| `IntGist.CloseEndsReturn` | postgresql-9.0.0/contrib/intarray/_int_gist.c:185-294 | it holds of keys of at most 134217724 elements whose ends are less than 268435449 apart and below INT_MAX |
| `IntGist.StoreRefuses` | postgresql-9.0.0/contrib/intarray/_int_gist.c:185-228 | the integers 0 to 134217724 are a key that compression is refused memory for |
| `IntGist.StoreOverruns` | postgresql-9.0.0/contrib/intarray/_int_gist.c:185-294 | and a key of 201 elements for which it does not: too short a block is granted |
| `IntGist.StoreInner` | postgresql-9.0.0/contrib/intarray/_int_gist.c:111-294 | union, compression and decompression together: a failure of the union, or the listing of all elements stored as above; a key results if and only if both succeed, and it is above every entry |
| `IntGist.Adjust` | postgresql-9.0.0/src/backend/access/gist/gistutil.c:321-370 | the old key is kept if and only if the two keys can be united and it holds the new one; a new key results if and only if they can be united, it does not, and their listing comes back, and then it is what that is stored as |
| `IntGist.RowsRaise` | postgresql-9.0.0/src/backend/access/gist/gistutil.c:321-370 | two rows of 199 elements get a key of 178800100 elements above them |
| `IntGist.WideningFails` | postgresql-9.0.0/src/backend/access/gist/gistutil.c:321-370 | a key of more than 134217724 elements, like that one, can never be widened |
| `IntGist.StoreLeaf` | postgresql-9.0.0/contrib/intarray/_int_gist.c:163-179 | a row of fewer than 200 distinct elements keeps exactly its set; from there on an odd number is read past the end, and an even one as ranges, with the outcomes of Decompress; a key that results holds the row |
| `IntGist.ReadAsRanges` | postgresql-9.0.0/contrib/intarray/_int_gist.c:275-285 | a long leaf read as ranges gains nothing if and only if each element at an even place is followed by its successor |
| `IntGist.ExecuteArr` | postgresql-9.0.0/contrib/intarray/_int_bool.c:272-327 | execute with the binary search as leaf test |
| `IntGist.SameKey` | postgresql-9.0.0/contrib/intarray/_int_gist.c:321-350 | equality of two prepared arrays is equality of sets |
| `IntGist.Consistent` | postgresql-9.0.0/contrib/intarray/_int_gist.c:39-109 | the leaf and inner tests of all five operators, and when a recheck is asked for |
| `IntGist.LeafExact` | postgresql-9.0.0/contrib/intarray/_int_gist.c:39-109 | the leaf test equals the operator for overlap and containment; for a Boolean query if and only if the row is not empty or the query fails on the empty array; every equal row passes, the empty one excepted |
| `IntGist.LeafAccepts` | postgresql-9.0.0/contrib/intarray/_int_gist.c:39-109 | the leaf test on the key of a row is a property of the row |
| `IntGist.EmptyRowAccepted` | postgresql-9.0.0/contrib/intarray/_int_bool.c:367-407 | the leaf test accepts the empty row for the query !1, of which the operator is false |
| `IntGist.InnerSound` | postgresql-9.0.0/contrib/intarray/_int_gist.c:39-109 | no key above a row that the leaf test accepts fails the inner test |
| `IntGist.InnerTight` | postgresql-9.0.0/contrib/intarray/_int_gist.c:39-109 | and a key passes only if it can stand above a row that the leaf test accepts: overlap, equality, contains and contained-by prune all they can |
| `IntGist.BooleanTight` | postgresql-9.0.0/contrib/intarray/_int_gist.c:39-109 | for a Boolean query the inner test is the expression with every negation replaced by true, on the elements of the key; without negations it prunes all it can |
| `IntGist.IndexAgrees` | postgresql-9.0.0/contrib/intarray/_int_gist.c:39-109 | after any run of insertions that returns, an index scan returns just the rows the leaf test accepts: those of a sequential scan for overlap, contains and contained-by; for a Boolean query if and only if no empty row was inserted or the query fails on the empty array; after the recheck for equality with a non-empty array |
| `IntGist.EmptyEquality` | postgresql-9.0.0/contrib/intarray/_int_gist.c:66-70 | equality with the empty array finds nothing, so it agrees with the operator if and only if no row is empty |
| `IntGist.PickSplit` | postgresql-9.0.0/contrib/intarray/_int_gist.c:375-563 | every entry on exactly one side, neither side empty, each new key the least key above the entries of its side; it fails only where some union on the way cannot be allocated, and never when the union of all entries can be, beside any of them |
| `IntBig.HashInto` | postgresql-9.0.0/contrib/intarray/_int.h:64-71 | sets the bit of one element and no other |
| `IntBig.HashesMeet` | postgresql-9.0.0/contrib/intarray/_int.h:64-71 | two elements share a bit if and only if they differ, as unsigned ints, by a multiple of 2016 |
| `IntBig.MakeSign` | postgresql-9.0.0/contrib/intarray/_int_tool.c:308-319 | the signature has exactly the bits of the elements |
| `IntBig.CompressLeaf` | postgresql-9.0.0/contrib/intarray/_intbig_gist.c:149-187 | the key of a row |
| `IntBig.CompressInner` | postgresql-9.0.0/contrib/intarray/_intbig_gist.c:188-216 | the flag replaces the signature exactly when all 2016 bits are set |
| `IntBig.UnionKey` | postgresql-9.0.0/contrib/intarray/_intbig_gist.c:268-278 | adds the bits of a key in place, or reports the flag |
| `IntBig.Union` | postgresql-9.0.0/contrib/intarray/_intbig_gist.c:281-310 | the union of the bits of all entries |
| `IntBig.StoreInner` | postgresql-9.0.0/contrib/intarray/_intbig_gist.c:188-310 | the stored key is above every entry |
| `IntBig.SameKeys` | postgresql-9.0.0/contrib/intarray/_intbig_gist.c:117-146 | equality of keys |
| `IntBig.Adjust` | postgresql-9.0.0/src/backend/access/gist/gistutil.c:321-370 | the old key is kept only if it is above the new one; otherwise the new key has exactly the bits of both |
| `IntBig.HemDist` | postgresql-9.0.0/contrib/intarray/_intbig_gist.c:220-259 | the number of bits in which two keys differ, flags included |
| `IntBig.PickSplit` | postgresql-9.0.0/contrib/intarray/_intbig_gist.c:340-501 | every entry on exactly one side, neither side empty, each new key the least key above the entries of its side, with the unions updated in place |
| `IntGist.StoreSplit` | postgresql-9.0.0/src/backend/access/gist/gist.c:926-996 | a split with its keys written and read back meets what insertion needs of it; it fails only where that of PickSplit may or where a least key of a side does not come back |
| `IntGist.SupportedIsSound` | postgresql-9.0.0/contrib/intarray/_int_gist.c:111-563 | support functions that meet the contracts of StoreInner, Adjust and StoreSplit, or fail, make every run of insertions that returns sound |
| `IntGist.CodedIsSound` | postgresql-9.0.0/contrib/intarray/_int_gist.c:111-563 | support functions that do just what these methods do, failures included, make a sound class, on all keys or on those of any window |
| `IntGist.ClassExists` | postgresql-9.0.0/contrib/intarray/_int_gist.c:111-563 | there is such a class for every page size and every window |
| `IntGist.WindowTotal` | postgresql-9.0.0/contrib/intarray/_int_gist.c:111-563 | for rows within a window below INT_MAX whose size allows two keys, and as many as the run splits a page into, to be united, every such run of every such class returns; 134217724 integers where pages are split in two |
| `IntBig.StoreSplit` | postgresql-9.0.0/src/backend/access/gist/gist.c:926-996 | a split with its keys compressed meets what insertion needs of it |
| `IntBig.SupportedIsSound` | postgresql-9.0.0/contrib/intarray/_intbig_gist.c:149-501 | support functions that meet the contracts of StoreInner, Adjust and StoreSplit make every run of insertions sound |
| `IntBig.ClassExists` | postgresql-9.0.0/contrib/intarray/_intbig_gist.c:149-501 | there is such a class for every page size, and every run of it returns |
| `IntBig.Consistent` | postgresql-9.0.0/contrib/intarray/_intbig_gist.c:504-622 | the leaf and inner tests of all five operators; always a recheck |
| `IntBig.TestsSound` | postgresql-9.0.0/contrib/intarray/_intbig_gist.c:504-622 | a matching row passes its own leaf test and the inner test of every key above it |
| `IntBig.InnerTight` | postgresql-9.0.0/contrib/intarray/_intbig_gist.c:504-622 | a signature passes the inner test if and only if it can stand above a row that the four array operators accept; the flag always passes |
| `IntBig.LeafTight` | postgresql-9.0.0/contrib/intarray/_intbig_gist.c:504-622 | it passes the leaf test if and only if it is the signature of such a row, or empty for contained-by |
| `IntBig.BooleanTight` | postgresql-9.0.0/contrib/intarray/_intbig_gist.c:504-622 | for a Boolean query both tests are the expression with every negation replaced by true, on the bits |
| `IntBig.IndexAgrees` | postgresql-9.0.0/contrib/intarray/_intbig_gist.c:504-622 | after any run of insertions, the rechecked scan returns just the rows of a sequential scan for all five operators, equality with the empty array excepted |
| `IntBig.EmptyEquality` | postgresql-9.0.0/contrib/intarray/_intbig_gist.c:530-535 | equality with the empty array loses the empty rows, and so agrees with the operator if and only if there are none |
| `Ltree.PathCmpTotal` | postgresql-9.0.0/contrib/ltree/ltree_op.c:60-86 | the level-wise order of paths is total |
| `Ltree.PathBelow` | postgresql-9.0.0/contrib/ltree/ltree_op.c:60-86 | an ancestor comes first, otherwise the first level that differs decides, by the bytes of its label |
| `Ltree.Compare` | postgresql-9.0.0/contrib/ltree/ltree_op.c:60-86 | has the sign of that order if and only if the 32-bit product for a descendant does not lose it; zero only for equal paths |
| `Ltree.ComparedSign` | postgresql-9.0.0/contrib/ltree/ltree_op.c:60-86 | where the sign is lost the value is negative and the order positive |
| `Ltree.DepthLimit` | postgresql-9.0.0/contrib/ltree/ltree_op.c:60-86 | the sign is right for all paths of at most n levels if and only if n is at most 14653 |
| `Ltree.TruncMonotone` | postgresql-9.0.0/contrib/ltree/ltree_gist.c:473-495 | cutting two paths to the same number of levels keeps their order |
| `Ltree.InnerIsParent` | postgresql-9.0.0/contrib/ltree/ltree_op.c:154-176 | decides whether one path is the other or an ancestor of it |
| `Ltree.LcaInner` | postgresql-9.0.0/contrib/ltree/ltree_op.c:424-487 | the longest path that is a proper ancestor of all; none if and only if some path is empty |
| `LtreeGist.Union` | postgresql-9.0.0/contrib/ltree/ltree_gist.c:169-250 | the tightest bounds of all entries |
| `LtreeGist.SameKeys` | postgresql-9.0.0/contrib/ltree/ltree_gist.c:109-150 | both bounds are equal |
| `LtreeGist.Adjust` | postgresql-9.0.0/src/backend/access/gist/gistutil.c:321-370 | the old key is kept only if it is above the new one; otherwise the new key is above both, with bounds of theirs |
| `LtreeGist.PickSplit` | postgresql-9.0.0/contrib/ltree/ltree_gist.c:287-441 | sorted by left bound and halved: every entry on exactly one side, each new key the least key above the entries of its side |
| `LtreeGist.SupportedIsSound` | postgresql-9.0.0/contrib/ltree/ltree_gist.c:109-441 | support functions that meet the contracts of Union, Adjust and PickSplit make every run of insertions sound |
| `LtreeGist.ClassExists` | postgresql-9.0.0/contrib/ltree/ltree_gist.c:109-441 | there is such a class for every page size, and every run of it returns |
| `LtreeGist.GistIsParent` | postgresql-9.0.0/contrib/ltree/ltree_gist.c:443-461 | true exactly when the query or an ancestor of it compares as between the bounds; the level count it shortens is put back |
| `LtreeGist.GistIsChild` | postgresql-9.0.0/contrib/ltree/ltree_gist.c:472-495 | compares the query with the bounds cut to its length |
| `LtreeGist.Consistent` | postgresql-9.0.0/contrib/ltree/ltree_gist.c:639-687 | the leaf and inner tests of the five order operators, ancestors and descendants, for every query |
| `LtreeGist.LeafExact` | postgresql-9.0.0/contrib/ltree/ltree_gist.c:639-687 | the leaf test equals the operator, for a query within the depth limit and for =, @> and <@ of any query |
| `LtreeGist.LeafExactIff` | postgresql-9.0.0/contrib/ltree/ltree_gist.c:639-687 | for the four ordering operators it equals the operator if and only if the comparison of the query with the row keeps its sign |
| `LtreeGist.LeafOnAncestors` | postgresql-9.0.0/contrib/ltree/ltree_gist.c:642-672 | it is right on all ancestors of the query if and only if the query has at most 14653 levels |
| `LtreeGist.RootLost` | postgresql-9.0.0/contrib/ltree/ltree_gist.c:642-647 | a query of 14654 levels that the empty path is below, by the operator, and fails by the leaf test |
| `LtreeGist.OperatorExact` | postgresql-9.0.0/contrib/ltree/ltree_op.c:88-136 | on rows within the depth limit the operators are right for every query |
| `LtreeGist.InnerSound` | postgresql-9.0.0/contrib/ltree/ltree_gist.c:639-687 | no key whose bounds enclose a match fails the inner test, with that condition on the query |
| `LtreeGist.InnerTight` | postgresql-9.0.0/contrib/ltree/ltree_gist.c:639-687 | a key passes the inner test if and only if a row between its bounds matches, the strict operators taken with equality, for queries within the depth limit |
| `LtreeGist.IndexAgrees` | postgresql-9.0.0/contrib/ltree/ltree_gist.c:639-687 | after any run of insertions of paths within the depth limit, the scan returns just the rows that match, without a recheck, with that condition on the query |
| `LtreeGist.IndexAgreesIff` | postgresql-9.0.0/contrib/ltree/ltree_gist.c:639-687 | index scan and sequential scan agree after every run of every sound class if and only if the query has at most 14653 levels or its operator is =, @> or <@ |
| `Cube.OverlapV0` | postgresql-9.0.0/contrib/cube/cube.c:1166-1208 | true exactly when the boxes, padded with zeros, have a point in common |
| `Cube.MeetsIffIntersect` | postgresql-9.0.0/contrib/cube/cube.c:1166-1208 | intervals that meet in every coordinate have a common point, and conversely |
| `Cube.ContainsV0` | postgresql-9.0.0/contrib/cube/cube.c:1096-1132 | containment in the dimensions of the second box |
| `Cube.InsideIffContains` | postgresql-9.0.0/contrib/cube/cube.c:1096-1132 | that is containment of point sets if and only if the first box holds zero in the dimensions the second lacks |
| `Cube.ContainsWithoutMeeting` | postgresql-9.0.0/contrib/cube/cube.c:1116-1129 | two boxes without a common point of which one is said to contain the other |
| `Cube.UnionV0` | postgresql-9.0.0/contrib/cube/cube.c:730-783 | the smallest box that holds both, for any order of corners and any mix of dimensions |
| `Cube.CmpV0` | postgresql-9.0.0/contrib/cube/cube.c:909-987 | negative, zero or positive as the first box comes before, equals or comes after the second: the smaller low corner, then high corner, at the first difference in the shared dimensions, then against zero in the others, then fewer dimensions; zero exactly for the same box of the same dimension |
| `Cube.ZeroIffSame` | postgresql-9.0.0/contrib/cube/cube.c:909-987 | the comparison is zero exactly for the same box |
| `Cube.Antisymmetric` | postgresql-9.0.0/contrib/cube/cube.c:909-987 | exchanging the boxes negates it |
| `Cube.Cycle` | postgresql-9.0.0/contrib/cube/cube.c:909-987 | for any two positive dimensions, three boxes that compare in a circle |
| `Cube.TransitiveIff` | postgresql-9.0.0/contrib/cube/cube.c:909-987 | the comparison is transitive on boxes of given dimensions if and only if at most one of these is positive |
| `CubeGist.Union` | postgresql-9.0.0/contrib/cube/cube.c:390-418 | above every entry, and inside every box that holds them all |
| `CubeGist.Adjust` | postgresql-9.0.0/src/backend/access/gist/gistutil.c:321-370 | the old key is kept only if it is above the new one; otherwise the new key is above both and inside every box that holds both |
| `CubeGist.PickSplit` | postgresql-9.0.0/contrib/cube/cube.c:482-629 | every entry on exactly one side, neither side empty, each new key the least key above the entries of its side, whatever the measures |
| `CubeGist.SupportedIsSound` | postgresql-9.0.0/contrib/cube/cube.c:390-629 | support functions that meet the contracts of Union, Adjust and PickSplit make every run of insertions sound |
| `CubeGist.ClassExists` | postgresql-9.0.0/contrib/cube/cube.c:390-629 | there is such a class for every page size, and every run of it returns |
| `CubeGist.Consistent` | postgresql-9.0.0/contrib/cube/cube.c:655-715 | the leaf test is the operator; the inner tests |
| `CubeGist.HeldByIff` | postgresql-9.0.0/contrib/cube/cube.c:707-710 | for a row contained in the query, all keys above it pass if and only if the query holds zero in the dimensions the row lacks |
| `CubeGist.InnerSound` | postgresql-9.0.0/contrib/cube/cube.c:687-715 | no key above a match fails, with that condition for contained-by |
| `CubeGist.InnerTight` | postgresql-9.0.0/contrib/cube/cube.c:687-715 | a key passes the inner test if and only if it can stand above a match, one that the query has room for where it lacks dimensions for contained-by; for equality exactly which keys that pass can |
| `CubeGist.IndexAgrees` | postgresql-9.0.0/contrib/cube/cube.c:655-715 | after any run of insertions the scan returns just the rows of a sequential scan, with that condition for contained-by |
| `CubeGist.LostRow` | postgresql-9.0.0/contrib/cube/cube.c:707-710 | whenever the condition fails, on pages of any size that enough copies of the row exceed, the run that first splits the root loses all copies |
| `CubeGist.HeldByIndexIff` | postgresql-9.0.0/contrib/cube/cube.c:655-715 | contained-by through the index agrees with the operator after every run over a table, for every sound class with pages of a given size that enough copies of a row exceed, if and only if the condition holds of every contained row of the table |

## Left out

- IntRanges.Decompress: the ranges of a key are taken to ascend, as every compressed key does; what is in the cell past a key of odd length, and what a write behind the block does, is not modelled.
- IntGist.IndexAgrees: speaks of rows whose leaf key, read back, holds exactly their elements; these are the rows of fewer than 200 distinct elements and those of `IntGist.ReadAsRanges`.
- IntGist.StoreInner: a key is read back at once; in the source the insertion that stored it returns and the next read of the page fails, so a run that returns here is one whose keys can all be read again.
- IntGist.PickSplit: where the union of all entries beside one of them is too long, whether the split fails depends on the order in which entries are dealt out, and is not stated exactly; a block that is too short counts as a failure. Sizes are exact, not float; the choice they steer is immaterial to the result.
- IntGist.ClassExists: the class shown puts the first entry on one side of a split; the splits of the source are those of `IntGist.PickSplit`. The same holds of the other three classes.
- IntSets.InnerUnion: the shrinking of the result array is not modelled.
- BoolQuery.ExecuteIsEval: starts from a well-formed postfix query; the parser `makepol` and the simplifier `shorterquery` are not modelled, since they do not keep the meaning of every query. Reads outside the query count as false.
- HstorePairs.UniquePairs: `qsort` is modelled as some sorted permutation; the freeing of dropped pairs is not.
- HstoreBuild.Builder.Finalize: memory is one cell per entry word and one per byte, not bytes throughout.
- HstoreText.HSParser.GetVal: white space, and what counts as a capital, is that of the C locale.
- HstoreText.HSParser.ParsePairs: a pair takes 40 bytes, as on a 64-bit machine.
- HstoreCompat.Upgrade: the bit fields of an old entry are laid out as on i386; a value that passes as both old and new is taken for old, as the contrib build does; the choice of the hstore-new build is not modelled.
- LtreeGist.SameKeys: compares the bounds only; the signature part of an ltree key, which serves `lquery` and `ltxtquery`, is not modelled.
- LtreeGist.IndexAgrees: strategies 12 to 17 (`lquery`, `ltxtquery` and arrays of them) are not modelled.
- Ltree.Compare: `strncmp` returns the difference of the first differing bytes.
- Cube.UnionV0: coordinates are real numbers, so NaN and rounding are not modelled.
- CubeGist.PickSplit: `rt_cube_size` and `cube_inter` only steer the choice and are arbitrary functions.
- GistInsert.Insert: the tree is a value; buffers, locks, page numbers, write-ahead log, concurrent splits (NSN and right links), multi-column keys, NULL keys, invalid tuples and deletion are not modelled, and a run in which a support function fails leaves no index to speak of.
- GistInsert.Scan: all results at once; killed tuples and marking a position are not modelled.
- hstore: record and array conversion, each/skeys/svals, GIN and GiST support, and subscripting would only add easy members.
- intarray: subarray and sort functions, `inner_int_inter` (its duplicate guard looks before the array), penalty functions.
- ltree: input and output, `lquery` matching (its result depends on static state), text functions.
- cube: parser, distances, enlargement, subsets.
- fuzzystrmatch: soundex, metaphone and double metaphone are long lists of branches with little to state beyond each.
- btree_gist, isn, tsearch and the other contrib modules are not part of this model.
- Allocation is modelled where it depends on the size of a value: integer arrays, the word and pair buffers of the hstore parser, arrays of keys, packed and printed hstores. Allocations of bounded size, of copies of a value that exists already, and of split vectors, and running out of memory below the limit, are not.
- toast, Datum and function-manager handling are not modelled anywhere.
