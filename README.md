# American flag sort, modelled and proved in Dafny

This project models `AmericanFlag` from algs4. It is an in-place,
non-recursive MSD (most significant digit first) radix sort with two
variants.

- The string variant sorts extended-ASCII strings character by character.
- The int variant sorts 32-bit ints byte by byte, most significant byte first.

Both variants keep an explicit stack of work items `(lo, hi, d)`. The loop
pops an item and acts on its size:

- If the item holds at most `CUTOFF + 1` keys, insertion sort finishes it,
  comparing from digit `d`.
- Otherwise one pass on digit `d` does the following:
  - it counts the keys per bucket into `first`;
  - it turns the counts into bucket starts, pushing an item at depth `d + 1`
    for each bucket holding two keys or more;
  - it copies the starts into the cursors `next`;
  - it permutes the range in place by cycle-leader swaps;
  - it clears both tables.

For strings, bucket 0 is the end-of-string sentinel. Its keys are equal, so
it is never pushed. For ints, nothing is pushed once byte 3 is reached.

Layout:

- `lex.dfy`: module `Lexicographic`, a reference lexicographic order on
  digit sequences.
- `string_keys.dfy`: module `StringKeys`. Contains `charAt`, the string
  `less` and its order properties.
- `int_keys.dfy`: module `IntKeys`. Contains the byte extraction
  `(x >> shift) & 0xFF`, the int `less` and its relation to unsigned 32-bit
  order.
- `buckets.dfy`: module `Buckets`. One pass (count, prefix sums with pushes,
  cursor copy, permutation, clearing) and `exch`. The pass is written once,
  generic over the key type and a bucket function.
- `worklist.dfy`: module `Worklist`. The invariant of the work-list loop and
  how one step preserves it.
- `string_sort.dfy` and `int_sort.dfy`: modules `StringSort` and `IntSort`.
  Each has the sort loop, insertion sort and the per-variant proofs.

What is proved about each `sort`:

- Afterwards, no key of `a[lo..hi]` is less than a key before it.
- The range holds the same multiset of keys.
- Nothing outside the range has moved.
- Sorting an array that is already in order leaves it unchanged, because a
  sorted order of a multiset of keys is unique (`SortedUnique`). For ints
  this needs every key to be a Java int, on which unsigned order is total.
- The loop terminates. The measure is the sum over stacked items of
  `size * (height - d)`, and the stack length breaks ties.

For ints, "less" is proved to be the unsigned 32-bit order, and
`IntSort.Sort` states that order outright. For non-negative ints it is
numeric order (`IntKeys.UnsignedOfNonNegative`). This is what the source's
documentation means by assuming non-negative integers. A negative int sorts
after every non-negative one.

## Model

| member | source | states |
|---|---|---|
| Lexicographic.LexIrreflexive | src/main/java/edu/princeton/cs/algs4/AmericanFlag.java:152-159 | no digit sequence is lexicographically below itself |
| Lexicographic.LexAsymmetric | src/main/java/edu/princeton/cs/algs4/AmericanFlag.java:152-159 | x below y excludes y below x |
| Lexicographic.LexTransitive | src/main/java/edu/princeton/cs/algs4/AmericanFlag.java:152-159 | the lexicographic order is transitive |
| Lexicographic.LexTotal | src/main/java/edu/princeton/cs/algs4/AmericanFlag.java:152-159 | two sequences neither of which is below the other are equal |
| Lexicographic.LexNotBelowTransitive | src/main/java/edu/princeton/cs/algs4/AmericanFlag.java:152-159 | "not below" is transitive, which insertion sort relies on |
| Lexicographic.LexCommonPrefix | src/main/java/edu/princeton/cs/algs4/AmericanFlag.java:153 | a shared prefix does not change the comparison |
| Lexicographic.LexPrefixBelow | src/main/java/edu/princeton/cs/algs4/AmericanFlag.java:158 | a proper prefix is below its extension |
| Lexicographic.LexFirstDifference | src/main/java/edu/princeton/cs/algs4/AmericanFlag.java:154-157 | the first differing digit decides the comparison |
| StringKeys.CharAt | src/main/java/edu/princeton/cs/algs4/AmericanFlag.java:57-62 | the d-th character for d below the length; for an extended-ASCII key the result is in -1..255 and is -1 exactly when d is the length |
| StringKeys.IsLess | src/main/java/edu/princeton/cs/algs4/AmericanFlag.java:151-159 | the loop over min(length) returns exactly the lexicographic comparison from character d |
| StringKeys.BucketRange | src/main/java/edu/princeton/cs/algs4/AmericanFlag.java:97-100 | charAt + 1 of an extended-ASCII key lies in 0..R, and is 0 (the sentinel) exactly at the end of the string |
| StringKeys.LessIsLex | src/main/java/edu/princeton/cs/algs4/AmericanFlag.java:151-159 | less from d equals lexicographic order of the suffixes from d |
| StringKeys.LessIrreflexive | src/main/java/edu/princeton/cs/algs4/AmericanFlag.java:151-159 | less(v, v, d) is false |
| StringKeys.LessAsymmetric | src/main/java/edu/princeton/cs/algs4/AmericanFlag.java:151-159 | less(v, w, d) excludes less(w, v, d) |
| StringKeys.LessTotal | src/main/java/edu/princeton/cs/algs4/AmericanFlag.java:151-159 | keys neither of which is less from d have equal suffixes from d |
| StringKeys.LessNotBelowTransitive | src/main/java/edu/princeton/cs/algs4/AmericanFlag.java:151-159 | "not less" is transitive |
| StringKeys.PrefixIsLess | src/main/java/edu/princeton/cs/algs4/AmericanFlag.java:158 | a proper prefix is less than its extension |
| StringKeys.LessSkipsCommonPrefix | src/main/java/edu/princeton/cs/algs4/AmericanFlag.java:152-153 | for keys sharing their first d characters, less from d equals less from 0 |
| StringKeys.LowerBucketIsLess | src/main/java/edu/princeton/cs/algs4/AmericanFlag.java:102-113 | keys sharing d characters with a lower bucket at d are less from 0 |
| StringKeys.SentinelKeysEqual | src/main/java/edu/princeton/cs/algs4/AmericanFlag.java:107-108 | two keys of the sentinel bucket at d that share d characters are equal, so that bucket needs no subproblem |
| StringKeys.AgreeOneMore | src/main/java/edu/princeton/cs/algs4/AmericanFlag.java:107-111 | two keys of one non-sentinel bucket at d share d + 1 characters |
| IntKeys.Shift | src/main/java/edu/princeton/cs/algs4/AmericanFlag.java:195 | the shift for byte d is a multiple of 8, at most 24 |
| IntKeys.Byte | src/main/java/edu/princeton/cs/algs4/AmericanFlag.java:197 | (x >> shift) & 0xFF is always in 0..255, for negative x too |
| IntKeys.IsLess | src/main/java/edu/princeton/cs/algs4/AmericanFlag.java:250-261 | the byte loop from d to 3 returns exactly Less(v, w, d) |
| IntKeys.LessIsLex | src/main/java/edu/princeton/cs/algs4/AmericanFlag.java:250-261 | Less from d is lexicographic order of bytes d..3 |
| IntKeys.LessIrreflexive | src/main/java/edu/princeton/cs/algs4/AmericanFlag.java:260 | less(v, v, d) is false |
| IntKeys.LessAsymmetric | src/main/java/edu/princeton/cs/algs4/AmericanFlag.java:250-261 | less(v, w, d) excludes less(w, v, d) |
| IntKeys.LessNotBelowTransitive | src/main/java/edu/princeton/cs/algs4/AmericanFlag.java:250-261 | "not less" is transitive |
| IntKeys.LessSkipsAgreedBytes | src/main/java/edu/princeton/cs/algs4/AmericanFlag.java:253 | for keys agreeing on bytes below d, less from any i <= d equals less from d |
| IntKeys.LowerByteIsLess | src/main/java/edu/princeton/cs/algs4/AmericanFlag.java:201-212 | keys agreeing below byte d with a lower byte d are less from 0 |
| IntKeys.AgreeOneMore | src/main/java/edu/princeton/cs/algs4/AmericanFlag.java:206-210 | keys of one bucket at byte d agree on bytes 0..d |
| IntKeys.AllBytesAgree | src/main/java/edu/princeton/cs/algs4/AmericanFlag.java:206 | keys agreeing on all four bytes are not less than each other, so nothing is pushed after byte 3 |
| IntKeys.ByteDecomposition | src/main/java/edu/princeton/cs/algs4/AmericanFlag.java:195-197 | the four bytes spell x mod 2^32, big-endian |
| IntKeys.LessIsUnsignedOrder | src/main/java/edu/princeton/cs/algs4/AmericanFlag.java:161-168 | less from byte 0 holds exactly when the unsigned 32-bit value is smaller |
| IntKeys.LessTotalOnInt32 | src/main/java/edu/princeton/cs/algs4/AmericanFlag.java:250-261 | two Java ints neither of which is less than the other are equal |
| IntKeys.UnsignedInjective | src/main/java/edu/princeton/cs/algs4/AmericanFlag.java:160-163 | distinct Java ints have distinct unsigned 32-bit values |
| IntKeys.UnsignedOfNonNegative | src/main/java/edu/princeton/cs/algs4/AmericanFlag.java:163 | a non-negative int is its own unsigned value, so the order is numeric order |
| Buckets.Occ | src/main/java/edu/princeton/cs/algs4/AmericanFlag.java:96-100 | the count of keys in bucket c is at most the range length |
| Buckets.Before | src/main/java/edu/princeton/cs/algs4/AmericanFlag.java:102-105 | the number of keys in buckets below c is at most the range length |
| Buckets.OccPermutation | src/main/java/edu/princeton/cs/algs4/AmericanFlag.java:119-127 | rearranging the keys leaves every bucket count unchanged |
| Buckets.BeforeMonotone | src/main/java/edu/princeton/cs/algs4/AmericanFlag.java:102-105 | bucket starts never decrease |
| Buckets.BeforeEnds | src/main/java/edu/princeton/cs/algs4/AmericanFlag.java:102-105 | the starts run from 0 to the range length |
| Buckets.BucketStarts | src/main/java/edu/princeton/cs/algs4/AmericanFlag.java:102-105 | the prefix-sum table starts at lo, ends at hi + 1, is monotone, and consecutive entries differ by the bucket counts |
| Buckets.BucketsInOrder | src/main/java/edu/princeton/cs/algs4/AmericanFlag.java:119-127 | for positions p <= q in buckets c1 and c2, c1 <= c2 |
| Buckets.RegionUnique | src/main/java/edu/princeton/cs/algs4/AmericanFlag.java:119-127 | a position lies in one bucket only |
| Buckets.SlotsInOrder | src/main/java/edu/princeton/cs/algs4/AmericanFlag.java:119-127 | once every key is in its bucket, a key at p <= q has a slot no greater than the key at q |
| Buckets.SubproblemsWithin | src/main/java/edu/princeton/cs/algs4/AmericanFlag.java:107-112 | every pushed item has two or more keys inside the range, at depth d + 1 |
| Buckets.SubproblemsAscending | src/main/java/edu/princeton/cs/algs4/AmericanFlag.java:104-112 | pushed items come in ascending, disjoint order |
| Buckets.SubproblemsNone | src/main/java/edu/princeton/cs/algs4/AmericanFlag.java:206 | with the depth guard false (byte 3 of an int), nothing is pushed |
| Buckets.SubproblemBucket | src/main/java/edu/princeton/cs/algs4/AmericanFlag.java:107-112 | every pushed item is the range of one bucket c >= minBucket |
| Buckets.SubproblemsComplete | src/main/java/edu/princeton/cs/algs4/AmericanFlag.java:107-112 | every bucket c >= minBucket holding two keys or more is pushed when the guard allows |
| Buckets.MeasureConcat | src/main/java/edu/princeton/cs/algs4/AmericanFlag.java:86-89 | the stack measure is additive |
| Buckets.PushedBelowItem | src/main/java/edu/princeton/cs/algs4/AmericanFlag.java:107-112 | the pushed items weigh less than the popped item |
| Buckets.PassMeasure | src/main/java/edu/princeton/cs/algs4/AmericanFlag.java:86-134 | replacing the popped item by its pushed items decreases the stack measure, so the loop terminates |
| Buckets.Exch | src/main/java/edu/princeton/cs/algs4/AmericanFlag.java:144-149 | a[i] and a[j] are swapped, nothing else changes, the multiset is kept |
| Buckets.ExchKeepsRange | src/main/java/edu/princeton/cs/algs4/AmericanFlag.java:144-149 | a swap inside lo..hi keeps that range's multiset |
| Buckets.PermMember | src/main/java/edu/princeton/cs/algs4/AmericanFlag.java:119-127 | every key of a rearranged range came from that range |
| Buckets.Count | src/main/java/edu/princeton/cs/algs4/AmericanFlag.java:96-100 | first[0] stays 0 and first[c + 1] is the number of keys in bucket c |
| Buckets.PrefixSums | src/main/java/edu/princeton/cs/algs4/AmericanFlag.java:102-113 | first[c] is lo plus the keys in buckets below c, first[0] is lo, the last entry is hi + 1, the table is monotone, and the stack gains exactly the subproblems |
| Buckets.SumStep | src/main/java/edu/princeton/cs/algs4/AmericanFlag.java:105-112 | one iteration adds one prefix entry and the push for bucket c |
| Buckets.CopyCursors | src/main/java/edu/princeton/cs/algs4/AmericanFlag.java:115-117 | next equals first entry by entry |
| Buckets.Clear | src/main/java/edu/princeton/cs/algs4/AmericanFlag.java:129-133 | both tables are all zero |
| Buckets.PlacingStart | src/main/java/edu/princeton/cs/algs4/AmericanFlag.java:115-120 | the permutation loop's invariant holds at k = lo |
| Buckets.SwapKeepsPlacing | src/main/java/edu/princeton/cs/algs4/AmericanFlag.java:122-124 | swapping a[k] into its bucket's cursor and advancing that cursor keeps the invariant |
| Buckets.AdvanceKeepsPlacing | src/main/java/edu/princeton/cs/algs4/AmericanFlag.java:126 | a key already in its bucket advances k and the cursor, keeping the invariant |
| Buckets.CursorInsideBucket | src/main/java/edu/princeton/cs/algs4/AmericanFlag.java:122-123 | when a[k] belongs to a later bucket, that bucket's cursor is still inside it |
| Buckets.InsideOwnBucket | src/main/java/edu/princeton/cs/algs4/AmericanFlag.java:122-126 | once the inner loop stops, k lies inside a[k]'s bucket |
| Buckets.UnfilledAdvance | src/main/java/edu/princeton/cs/algs4/AmericanFlag.java:122-124 | each swap fills one slot, so the inner loop terminates |
| Buckets.SwapIn | src/main/java/edu/princeton/cs/algs4/AmericanFlag.java:122-124 | one exch(a, k, next[c]++) keeps the invariant and the multiset and decreases the unfilled count |
| Buckets.Advance | src/main/java/edu/princeton/cs/algs4/AmericanFlag.java:126 | next[c]++ for a placed key moves the invariant to k + 1 |
| Buckets.PlaceAt | src/main/java/edu/princeton/cs/algs4/AmericanFlag.java:120-127 | one step of the k-loop moves the invariant to k + 1, keeping the multiset |
| Buckets.Permute | src/main/java/edu/princeton/cs/algs4/AmericanFlag.java:119-127 | the range is a permutation of its old keys, every key lies in its bucket, and nothing outside moves |
| Buckets.Pass | src/main/java/edu/princeton/cs/algs4/AmericanFlag.java:96-133 | one pass: the table is the bucket starts, the stack gains exactly the subproblems, the range is permuted with every key in its bucket, nothing outside moves, and both tables end zero |
| Worklist.PendingStart | src/main/java/edu/princeton/cs/algs4/AmericanFlag.java:80-84 | the stack holding only (lo, hi, 0) satisfies the work-list invariant |
| Worklist.PendingDone | src/main/java/edu/princeton/cs/algs4/AmericanFlag.java:86 | with an empty stack the invariant means lo..hi is in order |
| Worklist.StepKeepsPending | src/main/java/edu/princeton/cs/algs4/AmericanFlag.java:86-134 | replacing the popped item by what one step pushes keeps the invariant, the multiset and the outside |
| Worklist.TopItem | src/main/java/edu/princeton/cs/algs4/AmericanFlag.java:87-89 | the popped item lies inside the range, is shallower than the height, has agreeing keys and is disjoint from the rest of the stack |
| Worklist.SameKeysSameOrder | src/main/java/edu/princeton/cs/algs4/AmericanFlag.java:64-72 | two arrangements of one multiset, both in order under a relation that is total on its keys, are the same sequence |
| Worklist.HeadsEqual | src/main/java/edu/princeton/cs/algs4/AmericanFlag.java:64-72 | two sorted arrangements of one multiset start with the same key |
| Worklist.TailKeys | src/main/java/edu/princeton/cs/algs4/AmericanFlag.java:64-72 | dropping an equal first key from equal multisets leaves equal multisets |
| Worklist.AgreeKept | src/main/java/edu/princeton/cs/algs4/AmericanFlag.java:119-127 | rearranging a range keeps its keys agreeing to depth d |
| StringSort.MaxLength | src/main/java/edu/princeton/cs/algs4/AmericanFlag.java:75-80 | bounds the length of every key, giving the termination height |
| StringSort.SinkStep | src/main/java/edu/princeton/cs/algs4/AmericanFlag.java:140-141 | one exchange keeps the sinking invariant one position lower |
| StringSort.SinkDone | src/main/java/edu/princeton/cs/algs4/AmericanFlag.java:140 | when the inner loop stops, lo..i is sorted from d |
| StringSort.ExchKeepsReach | src/main/java/edu/princeton/cs/algs4/AmericanFlag.java:141 | a swap keeps every key at least d long |
| StringSort.SwapDown | src/main/java/edu/princeton/cs/algs4/AmericanFlag.java:141 | exch(a, j, j-1) keeps the sinking invariant, the multiset and the outside |
| StringSort.Sink | src/main/java/edu/princeton/cs/algs4/AmericanFlag.java:140-141 | the inner loop extends the sorted prefix to i |
| StringSort.Insertion | src/main/java/edu/princeton/cs/algs4/AmericanFlag.java:137-142 | lo..hi is sorted from d, is a permutation, and nothing outside moves |
| StringSort.SortRange | src/main/java/edu/princeton/cs/algs4/AmericanFlag.java:74-135 | lo..hi is in ascending order, a permutation of the old keys, and nothing outside moves |
| StringSort.Sort | src/main/java/edu/princeton/cs/algs4/AmericanFlag.java:64-72 | the array is in ascending order and a permutation of the old one; an array already in order comes back unchanged |
| StringSort.SortedUnique | src/main/java/edu/princeton/cs/algs4/AmericanFlag.java:64-72 | two arrangements of the same strings that are both in ascending order are equal, so sorting a sorted array changes nothing |
| StringSort.SortingStart | src/main/java/edu/princeton/cs/algs4/AmericanFlag.java:77-84 | the loop invariant holds initially |
| StringSort.SortingDone | src/main/java/edu/princeton/cs/algs4/AmericanFlag.java:86 | the invariant with an empty stack gives ascending order |
| StringSort.Finish | src/main/java/edu/princeton/cs/algs4/AmericanFlag.java:91-94 | insertion sort of a small item keeps the loop invariant for the remaining stack |
| StringSort.SmallReady | src/main/java/edu/princeton/cs/algs4/AmericanFlag.java:87-92 | the popped item is inside the range and its keys are at least d long |
| StringSort.SmallDone | src/main/java/edu/princeton/cs/algs4/AmericanFlag.java:91-94 | after insertion sort the invariant holds without the item |
| StringSort.Distribute | src/main/java/edu/princeton/cs/algs4/AmericanFlag.java:96-133 | a pass on a large item keeps the loop invariant with the pushed items, clears the tables and decreases the measure |
| StringSort.LargeReady | src/main/java/edu/princeton/cs/algs4/AmericanFlag.java:96-100 | the popped item's keys have slots 0..R (no out-of-range table index) |
| StringSort.LargeDone | src/main/java/edu/princeton/cs/algs4/AmericanFlag.java:96-133 | after the pass the invariant holds with the pushed items, and the measure decreases |
| StringSort.StepDone | src/main/java/edu/princeton/cs/algs4/AmericanFlag.java:86-134 | either kind of step re-establishes the loop invariant |
| StringSort.ItemReaches | src/main/java/edu/princeton/cs/algs4/AmericanFlag.java:98 | keys of an item at depth d are at least d long, so charAt is defined |
| StringSort.ItemSlots | src/main/java/edu/princeton/cs/algs4/AmericanFlag.java:98-99 | every key of the item has a slot in 0..R |
| StringSort.FitKept | src/main/java/edu/princeton/cs/algs4/AmericanFlag.java:119-127 | rearranging keeps every key extended ASCII and shorter than the height |
| StringSort.InsertionStep | src/main/java/edu/princeton/cs/algs4/AmericanFlag.java:91-93 | keys sorted from d that share d characters are sorted from 0 |
| StringSort.PassStep | src/main/java/edu/princeton/cs/algs4/AmericanFlag.java:96-133 | a pass is a valid step: pushed items inside, ascending, agreeing on d + 1, and uncovered pairs in order |
| StringSort.PushedItems | src/main/java/edu/princeton/cs/algs4/AmericanFlag.java:107-112 | pushed items lie inside the item, are shallower than the height, and their keys share d + 1 characters |
| StringSort.PushedDeeper | src/main/java/edu/princeton/cs/algs4/AmericanFlag.java:107-112 | a pushed bucket's keys are longer than d + 1, so its depth stays below the height |
| StringSort.PushedAgree | src/main/java/edu/princeton/cs/algs4/AmericanFlag.java:107-112 | the keys of every pushed item share d + 1 characters |
| StringSort.BucketAgree | src/main/java/edu/princeton/cs/algs4/AmericanFlag.java:107-111 | all keys of one non-sentinel bucket share d + 1 characters |
| StringSort.InBucket | src/main/java/edu/princeton/cs/algs4/AmericanFlag.java:119-127 | a key placed in bucket c's range has slot c |
| StringSort.BucketDeeper | src/main/java/edu/princeton/cs/algs4/AmericanFlag.java:107 | a non-sentinel bucket holding a key means depth d + 1 is below the height |
| StringSort.BucketPair | src/main/java/edu/princeton/cs/algs4/AmericanFlag.java:107-111 | two keys of one non-sentinel bucket share d + 1 characters |
| StringSort.PassOrder | src/main/java/edu/princeton/cs/algs4/AmericanFlag.java:102-127 | after a pass, pairs not covered by a pushed item are in order |
| StringSort.PairOrder | src/main/java/edu/princeton/cs/algs4/AmericanFlag.java:107-108 | an uncovered pair is in a lower bucket, or in the sentinel bucket where the keys are equal |
| IntSort.SinkStep | src/main/java/edu/princeton/cs/algs4/AmericanFlag.java:239-240 | one exchange keeps the sinking invariant one position lower |
| IntSort.SinkDone | src/main/java/edu/princeton/cs/algs4/AmericanFlag.java:239 | when the inner loop stops, lo..i is sorted from byte d |
| IntSort.SwapDown | src/main/java/edu/princeton/cs/algs4/AmericanFlag.java:240 | exch(a, j, j-1) keeps the sinking invariant, the multiset and the outside |
| IntSort.Sink | src/main/java/edu/princeton/cs/algs4/AmericanFlag.java:239-240 | the inner loop extends the sorted prefix to i |
| IntSort.Insertion | src/main/java/edu/princeton/cs/algs4/AmericanFlag.java:236-241 | lo..hi is sorted from byte d, is a permutation, and nothing outside moves |
| IntSort.SortRange | src/main/java/edu/princeton/cs/algs4/AmericanFlag.java:171-234 | lo..hi is in ascending order, a permutation of the old keys, and nothing outside moves |
| IntSort.Sort | src/main/java/edu/princeton/cs/algs4/AmericanFlag.java:160-169 | the array is in ascending unsigned 32-bit order and a permutation of the old one; an array of Java ints already in order comes back unchanged |
| IntSort.SortedUnique | src/main/java/edu/princeton/cs/algs4/AmericanFlag.java:160-169 | two arrangements of the same Java ints that are both in byte-wise order are equal, so sorting a sorted array changes nothing |
| IntSort.SortingStart | src/main/java/edu/princeton/cs/algs4/AmericanFlag.java:174-182 | the loop invariant holds initially |
| IntSort.SortingDone | src/main/java/edu/princeton/cs/algs4/AmericanFlag.java:184 | the invariant with an empty stack gives ascending order |
| IntSort.Finish | src/main/java/edu/princeton/cs/algs4/AmericanFlag.java:189-192 | insertion sort of a small item keeps the loop invariant for the remaining stack |
| IntSort.SmallReady | src/main/java/edu/princeton/cs/algs4/AmericanFlag.java:185-190 | the popped item lies inside the range |
| IntSort.SmallDone | src/main/java/edu/princeton/cs/algs4/AmericanFlag.java:189-192 | after insertion sort the invariant holds without the item |
| IntSort.Distribute | src/main/java/edu/princeton/cs/algs4/AmericanFlag.java:194-232 | a pass on a large item keeps the loop invariant with the pushed items, clears the tables and decreases the measure |
| IntSort.LargeReady | src/main/java/edu/princeton/cs/algs4/AmericanFlag.java:194-199 | the popped item is at a byte 0..3 and its keys have slots 0..255 |
| IntSort.LargeDone | src/main/java/edu/princeton/cs/algs4/AmericanFlag.java:194-232 | after the pass the invariant holds with the pushed items, and the measure decreases |
| IntSort.StepDone | src/main/java/edu/princeton/cs/algs4/AmericanFlag.java:184-233 | either kind of step re-establishes the loop invariant |
| IntSort.InsertionStep | src/main/java/edu/princeton/cs/algs4/AmericanFlag.java:189-191 | keys sorted from byte d that agree below d are sorted from byte 0 |
| IntSort.PassStep | src/main/java/edu/princeton/cs/algs4/AmericanFlag.java:194-232 | a pass is a valid step: pushed items inside, ascending, agreeing on bytes 0..d, and uncovered pairs in order |
| IntSort.PushedItems | src/main/java/edu/princeton/cs/algs4/AmericanFlag.java:206-211 | pushed items lie inside the item at depth at most 3, and their keys agree on bytes 0..d |
| IntSort.InBucket | src/main/java/edu/princeton/cs/algs4/AmericanFlag.java:218-226 | a key placed in bucket c's range has byte c |
| IntSort.BucketPair | src/main/java/edu/princeton/cs/algs4/AmericanFlag.java:206-210 | two keys of one bucket agree on bytes 0..d |
| IntSort.BucketAgree | src/main/java/edu/princeton/cs/algs4/AmericanFlag.java:206-210 | all keys of one bucket agree on bytes 0..d |
| IntSort.PassOrder | src/main/java/edu/princeton/cs/algs4/AmericanFlag.java:201-226 | after a pass, pairs not covered by a pushed item are in order |
| IntSort.PairOrder | src/main/java/edu/princeton/cs/algs4/AmericanFlag.java:206 | an uncovered pair is in a lower bucket, or shares all four bytes at d = 3 |
| IntSort.SameBucketTogether | src/main/java/edu/princeton/cs/algs4/AmericanFlag.java:206-211 | two keys of one bucket at byte d < 3 lie in one pushed item |
| IntSort.KeysInOrder | src/main/java/edu/princeton/cs/algs4/AmericanFlag.java:206 | keys agreeing below d with byte d in order, and equal only at byte 3, are in order |

## Left out

- `main` is not part of this model. It reads stdin, prints, and parses the
  command-line flag `-int`.
- `Stack<Integer>` is modelled as a sequence of `(lo, hi, d)` triples, with
  pushes appended at the end. The Java pushes and pops three ints per item,
  in the same order.
- StringSort.SortRange and IntSort.SortRange require `0 <= lo <= hi + 1 <=
  a.Length`. In the source, `hi < lo - 1` also works and does nothing.
- StringSort.Sort and StringSort.SortRange require every character of every
  key in the range to be in 0..255, as the extended-ASCII contract of the
  class says. The Java is stricter only where a pass runs. A pass indexes
  `first` out of bounds when it reads a character above 255 at its current
  depth. A range of at most CUTOFF + 1 = 16 keys goes straight to insertion
  sort, which only compares characters. So `sort(["Ā", "a"])` (U+0100 is
  256) returns `["a", "Ā"]` without error. Such keys in small ranges, or
  beyond the depth any pass reaches, are sorted by the source but excluded
  by the model's requires.
- Int keys are unbounded integers. `(x >> shift) & 0xFF` is modelled as
  `(x / 2^shift) % 256` with floor division, which agrees with Java's
  arithmetic shift for every 32-bit int.
- Insertion sort's `for` loop with a condition in its header is split into
  an outer loop (`Insertion`), an inner loop (`Sink`) and its body
  (`SwapDown`). The comparisons and exchanges are the same as in the source.
- The per-type copies of counting, prefix sums, permutation, clearing and
  `exch` are modelled once, in `Buckets`. The model is generic over the key
  type and a bucket function:
  - strings use charAt + 1 over R + 2 table slots, pushing from bucket 1;
  - ints use the byte over R + 1 slots, pushing only while d < 3.
- After the permutation loop, `next[c]` is not in general `first[c + 1]`.
  The loop also advances cursors past keys that swaps had already placed.
  The model therefore claims nothing about the final cursors. They are
  cleared anyway.
- The `first` table is allocated once and reused, as in the source. Its
  being all zero between passes is a loop invariant.
