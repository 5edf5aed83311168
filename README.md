# kanzi: Move-To-Front transforms, bucket sort and the Rice-Golomb byte codec

This project models four small routines of the kanzi compression library and
proves their contracts in Dafny:

- **MTFT (Java and Go).** The Move-To-Front transform keeps the recency list of the 256 byte
  values as one doubly linked chain of `Payload` nodes. Sixteen `heads` cut the chain into
  partitions. `lengths` holds the partition sizes. `buckets` maps each symbol to its partition.
  - `forward` replaces each byte by its rank in the recency list and promotes the byte to the front.
  - `inverse` undoes this with a flat table of 256 symbols.
  - Both versions are proved against one reference definition of the transform over a plain list,
    in module `MtfSpec`: `Encode`, `Decode`, `ListAfter` and `DecodeTable`. From those follow:
    - the round trip in both directions;
    - a rank is 0 exactly when a byte repeats.
  - The nodes live in an arena of records whose `previous`/`next` links are integer handles.
    - Java: 257 records, where handle 256 is the end `anchor`.
    - Go: 256 records, where handle -1 is `nil`.
  - Ghost state in each object:
    - the chain (node handles in walk order);
    - the partition starts.
  - The chain and the partition bookkeeping are the invariants that every operation keeps:
    `Valid` and `PartitionsValid`, built from `Linked` and `Partitioned` in module `MtfLists`.
- **BucketSort (Java).** A counting sort of `input[blkptr, blkptr + len)` for `int[]` and
  `byte[]`, with a reusable table of `1 << logMaxValue` counters. It is proved to:
  - reject bad ranges without changing anything;
  - treat `len == 1` as a no-op;
  - leave the range sorted and a permutation of its old contents, namely the one sorted
    arrangement `Spread`;
  - change nothing outside the range;
  - leave the counters at zero.

  The unrolled write of 16 values and the `System.arraycopy` of runs of 16 are modelled as
  written. `ArrayCopy` gives `System.arraycopy` (and Go's `copy`) their overlap semantics.
- **RiceGolombCodec (Go).**
  - `EncodeByte` is a function returning the bits written. It writes the quotient
    `val2 >> logBase` in unary (zeros closed by a one), then the low `logBase` bits, then in
    signed mode a sign bit.
  - `DecodeByte` is a method over a bit sequence and a read position. Its loop counts the unary
    quotient, and it is proved equal to the specification function `ReadCode`.
  - The bit stream is a `seq<bool>`. `WriteBits(v, n)` appends the low `n` bits of `v`, most
    significant first. `ReadBit` and `ReadBits` consume from the read position and fail at the
    end of the sequence.
  - Go's shifts and masks on the coded value are the recursive functions `Shl`, `Shr` and `Low`.
  - Proved for every byte value, every `logBase` in 1..7 and both modes:
    - the layout and length of each code;
    - the round trip, with any bits before and after the code;
    - the values returned when the stream ends early.

## Model

| member | source | states |
|---|---|---|
| MtfSpec.Identity | java/src/kanzi/transform/MTFT.java:53-77 | the initial recency list has 256 entries, entry `k` is `k`, and it is a permutation of 0..255 |
| MtfSpec.Rank | java/src/kanzi/transform/MTFT.java:199-214 | the rank emitted for a symbol is its first position in the recency list, and the list holds the symbol there |
| MtfSpec.MoveToFront | java/src/kanzi/transform/MTFT.java:216-223 | promoting a symbol puts it first and keeps the list length (its other entries are given by `MoveIndexToFront`) |
| MtfSpec.MoveToFrontKeepsPermutation | java/src/kanzi/transform/MTFT.java:216-223 | promoting a symbol keeps the recency list a permutation of 0..255 |
| MtfSpec.MoveIndexToFront | java/src/kanzi/transform/MTFT.java:117-130 | the entry at `idx` moves to position 0, the entries before it move up one place, and the entries after it stay |
| MtfSpec.CopiedUpMovesToFront | java/src/kanzi/transform/MTFT.java:127-130 | copying `indexes[0, idx)` up by one with array-copy semantics, then storing the value at 0, is moving entry `idx` to the front |
| MtfSpec.DecodeTableKeepsPermutation | java/src/kanzi/transform/MTFT.java:97-134 | the rank table of `inverse` stays a permutation of 0..255 whatever ranks it decodes |
| MtfSpec.DecodeEncode | java/src/kanzi/transform/MTFT.java:86-134 | decoding the ranks of a block, from the same starting list, gives the block back |
| MtfSpec.EncodeDecode | java/src/kanzi/transform/MTFT.java:86-134 | encoding the decoded symbols of any rank sequence gives the ranks back (the other direction of the round trip) |
| MtfSpec.RankZeroIffRepeat | java/src/kanzi/transform/MTFT.java:187-197 | rank `i` is 0 exactly when byte `i` equals the byte before it, or the list head for the first byte |
| MtfSpec.LastSymbolHeadsList | java/src/kanzi/transform/MTFT.java:216-240 | after a non-empty block the last byte heads the recency list, which is why `heads[0].value` equals `previous` |
| MtfSpec.HeadStaysInFront | java/src/kanzi/transform/MTFT.java:193-197 | the head of the list has rank 0 and promoting it changes nothing, so skipping a repeated byte is exact |
| MtfSpec.EncodeSnoc | java/src/kanzi/transform/MTFT.java:189-241 | one more byte appends its rank in the current list to the output |
| MtfSpec.DecodeSnoc | java/src/kanzi/transform/MTFT.java:106-131 | one more rank appends the table entry at that rank to the output |
| ArrayCopy.CopiedWithin | java/src/kanzi/transform/MTFT.java:127 | the positions `[dst, dst + n)` hold the old entries `[src, src + n)` and every other position is unchanged, even when the ranges overlap |
| ArrayCopy.CopyWithin | java/src/kanzi/util/sort/BucketSort.java:210 | `System.arraycopy` within one array leaves it equal to `CopiedWithin` of its old contents |
| MtfLists.ChainOfCounting | java/src/kanzi/transform/MTFT.java:62-81 | nodes `0..255` linked in order, each holding its own index, form a chain whose values are the identity |
| MtfLists.CanonicalIsPartitioned | java/src/kanzi/transform/MTFT.java:53-77 | the layout of one node in partition 0 and 17 in each other satisfies the partition invariant: lengths sum to 256, heads start partitions, buckets agree, and `lengths[0] <= 64` |
| MtfLists.Rebalanced | java/src/kanzi/transform/MTFT.java:156-182 | after the re-cut walk the chain is unchanged, its values are the target list, and heads, lengths and buckets form the canonical layout |
| MtfLists.RelinkToFront | java/src/kanzi/transform/MTFT.java:216-223 | unlinking the node at chain position `idx` and pushing it at the head yields the chain with that position moved to the front, and the same move on the values |
| MtfLists.PromoteKeepsPartitions | java/src/kanzi/transform/MTFT.java:225-237 | the head, length and bucket updates of a promotion keep the partition invariant whenever no rebalance is triggered, and give the promoted symbol bucket 0 |
| MtfLists.Locate | java/src/kanzi/transform/MTFT.java:199-212 | summing earlier partition lengths and walking inside the symbol's partition finds the symbol's global chain position, its node and its partition |
| MtfLists.Walk | java/src/kanzi/transform/MTFT.java:207-212 | walking along `next` from a node at or before the symbol's chain position reaches a node holding the symbol, no later than that position |
| JavaMtft.NewMTFT | java/src/kanzi/transform/MTFT.java:43-82 | construction fails exactly for a negative size; otherwise the object is valid and partitioned, has the given size and starts from the identity list |
| JavaMtft.MTFT.constructor | java/src/kanzi/transform/MTFT.java:43-82 | a new transform for a size of at least 0 is valid, partitioned, has that size and holds the identity list |
| JavaMtft.InitialTables | java/src/kanzi/transform/MTFT.java:49-81 | the constructor's tables: a chain 0..255 ending at the anchor, values the identity, and the canonical layout |
| JavaMtft.MTFT.SetSize | java/src/kanzi/transform/MTFT.java:137-144 | succeeds exactly for a size of at least 0, and only then changes `size` |
| JavaMtft.Rebalance | java/src/kanzi/transform/MTFT.java:156-182 | the chain is kept; values are renumbered 0..255 in walk order exactly when `resetValues` and otherwise unchanged; heads, lengths and buckets form the canonical layout |
| JavaMtft.RenumberNode | java/src/kanzi/transform/MTFT.java:175-179 | one inner step of the re-cut walk renumbers the next node (with `resetValues`, to its chain position) and files its symbol in the current partition's bucket |
| JavaMtft.RenumberList | java/src/kanzi/transform/MTFT.java:168-181 | one outer step of the re-cut walk extends the renumbered prefix of the chain by one partition of 17 nodes |
| JavaMtft.MTFT.BalanceLists | java/src/kanzi/transform/MTFT.java:156-182 | the object stays valid and partitioned; its list becomes the identity with `resetValues` and is unchanged otherwise; the starts are canonical |
| JavaMtft.Relink | java/src/kanzi/transform/MTFT.java:216-223 | the link writes of a promotion move the node at chain position `idx` to the head |
| JavaMtft.Reassign | java/src/kanzi/transform/MTFT.java:225-237 | the head, length and bucket updates are those of a promotion from the symbol's partition |
| JavaMtft.PromotedLinked | java/src/kanzi/transform/MTFT.java:216-237 | after a promotion the nodes form the moved chain, whose values are the old list with the symbol moved to the front |
| JavaMtft.Promote | java/src/kanzi/transform/MTFT.java:199-237 | for a symbol that is not the head, the emitted rank is its position in the list, the chain and the list move it to the front, and the partition invariant holds afterwards, through `balanceLists` when partition 0 outgrows 64 or a partition empties |
| JavaMtft.EncodeSymbol | java/src/kanzi/transform/MTFT.java:191-240 | one byte: its rank in the list (0 on a repeat) and the list after promoting it, with all invariants kept |
| JavaMtft.EncodeBlock | java/src/kanzi/transform/MTFT.java:185-244 | the ranks of a block are `Encode` of the block from the current list, and the list ends as `ListAfter` |
| JavaMtft.WriteBlock | java/src/kanzi/transform/MTFT.java:189-214 | the computed ranks land in `values[start, start + n)` and nothing else changes |
| JavaMtft.MTFT.MoveToFront | java/src/kanzi/transform/MTFT.java:185-244 | an end below `start` changes neither the array nor the list; otherwise `values[start, end)` becomes `Encode` of its old contents from the object's list, the rest of the array is unchanged, and the list ends as `ListAfter` |
| JavaMtft.MTFT.EncodeRange | java/src/kanzi/transform/MTFT.java:189-241 | the loop over a range inside the array: `values[start, end)` becomes `Encode` of its old contents, the rest is unchanged, the list ends as `ListAfter`, and the object stays valid and partitioned |
| JavaMtft.MTFT.Forward | java/src/kanzi/transform/MTFT.java:86-93 | `end` is the array length for size 0 and otherwise `blkptr + size` as a wrapping `int` sum; when `end` is below `blkptr` the array is unchanged and the list is the identity; otherwise, after the reset, `input[blkptr, end)` becomes `Encode(Identity, ...)`, the list ends as `ListAfter`, and nothing else in the array changes |
| JavaMtft.ResetIndexes | java/src/kanzi/transform/MTFT.java:99-102 | the rank table becomes 0, 1, ..., 255 |
| JavaMtft.ShiftUp | java/src/kanzi/transform/MTFT.java:120-128 | the element-by-element shift for small ranks and `System.arraycopy` both copy `indexes[0, idx)` up one place |
| JavaMtft.DecodeRank | java/src/kanzi/transform/MTFT.java:108-130 | one rank yields the table entry at that rank, and the table with that entry moved to the front (rank 0 is the shortcut) |
| JavaMtft.DecodeAt | java/src/kanzi/transform/MTFT.java:106-131 | one loop step extends the decoded prefix by one symbol and the table by one move |
| JavaMtft.DecodeBlock | java/src/kanzi/transform/MTFT.java:106-131 | `input[blkptr, end)` becomes `Decode` of its ranks and the table ends as `DecodeTable`; nothing else changes |
| JavaMtft.MTFT.Inverse | java/src/kanzi/transform/MTFT.java:97-134 | with `end` as in `Forward`: when `end` is below `blkptr` the array is unchanged and only `buckets` changes, to 0..255; otherwise `input[blkptr, end)` becomes `Decode(Identity, ...)` of its ranks, nothing else in the array changes, and of the tables only `buckets` changes, to the final rank table `DecodeTable` |
| GoMtft.InitialTables | go/src/kanzi/transform/MTFT.go:35-65 | the chain 0..255 whose last `next` is nil, values the identity, and the canonical layout |
| GoMtft.MTFT.constructor | go/src/kanzi/transform/MTFT.go:35-65 | `NewMTFT` accepts every size: the object is valid and partitioned, has that size and holds the identity list |
| GoMtft.MTFT.SetSize | go/src/kanzi/transform/MTFT.go:71-74 | always succeeds and sets `size` |
| GoMtft.NewPartitionAt | go/src/kanzi/transform/MTFT.go:135-139 | at a position `i` with `(i - 1) % 17 == 0`, where the counter `n` is 0, the next canonical partition starts and its index stays below 16 |
| GoMtft.CounterStep | go/src/kanzi/transform/MTFT.go:143-147 | the wrapping counter `n` equals `(i - 1) % 17` before step `i`, so partitions are cut every 17 nodes |
| GoMtft.BalanceStep | go/src/kanzi/transform/MTFT.go:130-148 | one step of the re-cut walk renumbers one more node, cutting a new partition when `n` is 0 |
| GoMtft.Rebalance | go/src/kanzi/transform/MTFT.go:118-149 | the chain is kept; values are renumbered 0..255 in walk order exactly when `resetValues`; heads, lengths and buckets form the canonical layout |
| GoMtft.MTFT.BalanceLists | go/src/kanzi/transform/MTFT.go:118-149 | the object stays valid and partitioned; its list becomes the identity with `resetValues` and is unchanged otherwise |
| GoMtft.Relink | go/src/kanzi/transform/MTFT.go:180-198 | the nil-guarded unlink and the push at the head move the node at chain position `idx` to the front |
| GoMtft.Reassign | go/src/kanzi/transform/MTFT.go:189-209 | the head, length and bucket updates are those of a promotion from the symbol's partition |
| GoMtft.PromotedLinked | go/src/kanzi/transform/MTFT.go:180-209 | after a promotion the nodes form the moved chain, whose values are the old list with the symbol moved to the front |
| GoMtft.Promote | go/src/kanzi/transform/MTFT.go:162-209 | for a symbol that is not the head, the emitted rank is its position in the list, the chain and the list move it to the front, and the partition invariant holds afterwards, through `balanceLists` when partition 0 outgrows 64 or a partition empties |
| GoMtft.EncodeSymbol | go/src/kanzi/transform/MTFT.go:155-211 | one byte: its rank in the list (0 on a repeat) and the list after promoting it, with all invariants kept |
| GoMtft.EncodeBlock | go/src/kanzi/transform/MTFT.go:151-215 | the ranks of a block are `Encode` of the block from the current list, and the list ends as `ListAfter` |
| GoMtft.WriteBlock | go/src/kanzi/transform/MTFT.go:157-178 | the computed ranks land in `values[0, n)` and nothing else changes |
| GoMtft.MTFT.MoveToFront | go/src/kanzi/transform/MTFT.go:151-215 | `values[0, end)` becomes `Encode` of its old contents from the object's list, the rest is unchanged, and the list ends as `ListAfter` |
| GoMtft.MTFT.Forward | go/src/kanzi/transform/MTFT.go:76-86 | after the reset, `input[0, end)` becomes `Encode(Identity, ...)` with `end` the input length for size 0 and `size` otherwise |
| GoMtft.ResetIndexes | go/src/kanzi/transform/MTFT.go:89-93 | the rank table becomes 0, 1, ..., 255 |
| GoMtft.DecodeAt | go/src/kanzi/transform/MTFT.go:101-111 | one loop step, with Go's overlapping `copy`, extends the decoded prefix by one symbol and the table by one move |
| GoMtft.DecodeBlock | go/src/kanzi/transform/MTFT.go:101-111 | `input[0, end)` becomes `Decode` of its ranks and the table ends as `DecodeTable` |
| GoMtft.MTFT.Inverse | go/src/kanzi/transform/MTFT.go:88-114 | `input[0, end)` becomes `Decode(Identity, ...)` of its ranks and the rest is unchanged; of the tables only `buckets` changes, to the final rank table `DecodeTable` |
| BucketSort.NewBucketSort | java/src/kanzi/util/sort/BucketSort.java:39-48 | construction fails exactly for `logMaxValue` below 2 or above 16, with the source's message for each side, and otherwise allocates `2^logMaxValue` zeroed counters |
| BucketSort.BucketSort.constructor | java/src/kanzi/util/sort/BucketSort.java:31-34 | the default sorter has 256 zeroed counters |
| BucketSort.BucketSort.WithLogMaxValue | java/src/kanzi/util/sort/BucketSort.java:39-48 | a valid `logMaxValue` gives `2^logMaxValue` zeroed counters |
| Bytes.AddInt | java/src/kanzi/util/sort/BucketSort.java:56 | Java `int` addition is the exact sum wrapped to 32 bits, and the exact sum when that fits |
| BucketSort.RangeRejectedAsWritten | java/src/kanzi/util/sort/BucketSort.java:56-57 | for `int` arguments, the guard as written rejects a negative `blkptr`, a `len` of at most 0, and a range running past the array only while `blkptr + len` stays at most `Integer.MAX_VALUE` |
| BucketSort.RangeRejected | java/src/kanzi/util/sort/BucketSort.java:56-57 | a range is rejected exactly when it is not a non-empty range inside the array |
| BucketSort.GuardsAgreeWithoutOverflow | java/src/kanzi/util/sort/BucketSort.java:56 | when `blkptr + len` fits in an `int`, the guard as written and the intended guard agree |
| BucketSort.OverflowSlipsPastGuard | java/src/kanzi/util/sort/BucketSort.java:56 | the guard as written accepts `blkptr = 1, len = Integer.MAX_VALUE` on a 10-element array, which the intended guard rejects |
| BucketSort.CountInts | java/src/kanzi/util/sort/BucketSort.java:62-89 | from zeroed counters, counter `v` ends holding the number of occurrences of `v` in the range |
| BucketSort.CountBytes | java/src/kanzi/util/sort/BucketSort.java:145-172 | the same for bytes, indexed by unsigned value |
| BucketSort.Fill | java/src/kanzi/util/sort/BucketSort.java:181-211 | the `val % 16` single writes plus the unrolled run of 16 and its copies put exactly `val` copies of the value at `j0`, and nothing else changes |
| BucketSort.FillRuns | java/src/kanzi/util/sort/BucketSort.java:187-211 | the 16 explicit writes and the copying loop fill `[j0, j0 + val16)` with the value |
| BucketSort.CopyRuns | java/src/kanzi/util/sort/BucketSort.java:208-210 | copying the first run of 16 onward with `System.arraycopy` fills the whole run with the value and touches nothing else |
| BucketSort.EmitInts | java/src/kanzi/util/sort/BucketSort.java:93-127 | for counter `i`, the written prefix grows from `Spread(s, i)` to `Spread(s, i + 1)` and the counter is cleared |
| BucketSort.EmitBytes | java/src/kanzi/util/sort/BucketSort.java:176-211 | the same for bytes: writing `(byte) i` as often as counted grows the written prefix from `Spread(s, i)` to `Spread(s, i + 1)` and clears counter `i` |
| BucketSort.LayOutInts | java/src/kanzi/util/sort/BucketSort.java:91-129 | the range becomes `Spread` of its contents, which is sorted and a permutation; every counter ends at 0; nothing outside the range changes |
| BucketSort.WriteCounts | java/src/kanzi/util/sort/BucketSort.java:174-212 | the byte writing loop lays out `Spread` of the counted bytes and clears every counter |
| BucketSort.LayOutBytes | java/src/kanzi/util/sort/BucketSort.java:174-212 | the byte range becomes `Spread` of its contents, sorted by unsigned value and a permutation; every counter ends at 0 |
| BucketSort.SpreadSorts | java/src/kanzi/util/sort/BucketSort.java:91-129 | laying out each value as often as it occurs, in increasing order, gives a sorted permutation of the input |
| BucketSort.SortedPermutationUnique | java/src/kanzi/util/sort/BucketSort.java:91-129 | two sorted sequences with the same multiset are equal, so the layout is the only possible sorted result |
| BucketSort.BucketSort.SortInts | java/src/kanzi/util/sort/BucketSort.java:54-131 | returns false exactly for a bad range and then changes nothing; `len == 1` changes nothing; otherwise the range is sorted, a permutation of its old contents, equal to `Spread`; nothing outside changes; counters end at 0 |
| BucketSort.BucketSort.SortBytes | java/src/kanzi/util/sort/BucketSort.java:137-215 | the same contract for `byte[]`, ordering by unsigned value |
| RiceGolomb.NewRiceGolombEncoder | go/src/kanzi/entropy/RiceGolombCodec.go:33-48 | fails exactly for a nil stream or `logBase` outside 1..7, with the nil message first; otherwise keeps the mode and `logBase` and sets `base = 1 << logBase` |
| RiceGolomb.NewRiceGolombDecoder | go/src/kanzi/entropy/RiceGolombCodec.go:103-121 | fails exactly for a nil stream or `logBase` outside 1..7, with the nil message first; otherwise keeps the mode and `logBase` |
| RiceGolomb.Magnitude | go/src/kanzi/entropy/RiceGolombCodec.go:65-71 | the magnitude of a byte read as an `int8` is at most 128, and 0 exactly for byte 0 |
| RiceGolomb.MagnitudeValue | go/src/kanzi/entropy/RiceGolombCodec.go:65-71 | the `int8` absolute value is the byte below 128 and `256 - val` from 128 on, so 0x80 has magnitude 128 |
| RiceGolomb.UnaryBinary | go/src/kanzi/entropy/RiceGolombCodec.go:73-75 | `base or (m and (base - 1))` written in `(m >> logBase) + 1 + logBase` bits is `m >> logBase` zeros, a one, and the low `logBase` bits of `m` |
| RiceGolomb.NonzeroLayout | go/src/kanzi/entropy/RiceGolombCodec.go:73-82 | the nonzero branch writes the unary quotient, a one bit and the low bits, then in signed mode the sign bit |
| RiceGolomb.EncodeLayout | go/src/kanzi/entropy/RiceGolombCodec.go:57-86 | every code is the unary quotient of the coded value, a one bit and its low `logBase` bits, plus a sign bit (1 for a top bit of 1) for a nonzero value in signed mode; 0 is a one followed by `logBase` zeros |
| RiceGolomb.EncodeByte | go/src/kanzi/entropy/RiceGolombCodec.go:57-86 | the code of `val` has `1 + (val2 >> logBase) + logBase` bits, plus one in signed mode for a nonzero value; its bit layout is `EncodeLayout` and its inverse `RoundTrip` |
| RiceGolomb.ReadBit | go/src/kanzi/entropy/RiceGolombCodec.go:132-136 | a bit read succeeds exactly before the end of the stream and then returns the next bit and advances by one |
| RiceGolomb.ReadBits | go/src/kanzi/entropy/RiceGolombCodec.go:149-153 | a read of `n` bits succeeds exactly when `n` bits remain and then returns their value, most significant first |
| RiceGolomb.ShiftsRebuild | go/src/kanzi/entropy/RiceGolombCodec.go:155 | `(v >> k) << k` or the low `k` bits of `v` rebuild `v` |
| RiceGolomb.ShiftsSplit | go/src/kanzi/entropy/RiceGolombCodec.go:155 | for `r < 1 << k`, `((a << k) or r) >> k` is `a` and its low `k` bits are `r` |
| RiceGolomb.ReadWritten | go/src/kanzi/entropy/RiceGolombCodec.go:149 | reading back `n` bits written by `WriteBits(v, n)` gives the low `n` bits of `v`, whatever surrounds them |
| RiceGolomb.UnaryAt | go/src/kanzi/entropy/RiceGolombCodec.go:138-146 | the unary loop counts exactly the zero bits before the first one bit |
| RiceGolomb.ReadCode | go/src/kanzi/entropy/RiceGolombCodec.go:130-172 | the decoding of one code never reads past the stream; a success consumes at least the closing one bit and the `logBase` remainder bits; a failure returns 0, except at a missing sign bit |
| RiceGolomb.ReadSign | go/src/kanzi/entropy/RiceGolombCodec.go:157-171 | the sign step fails exactly when a sign bit is due (nonzero result, signed mode) and the stream has ended; a sign bit is consumed exactly when one is due and present; without one the byte is `res` truncated to 8 bits |
| RiceGolomb.DecodeByte | go/src/kanzi/entropy/RiceGolombCodec.go:130-172 | the decoding loop returns exactly `ReadCode`: quotient, remainder, `(q << logBase) or r`, the sign step, and each read error |
| RiceGolomb.SignAt | go/src/kanzi/entropy/RiceGolombCodec.go:157-171 | a sign bit is read only for a nonzero result in signed mode; a one gives `byte(int8(-res))`; a failed sign read returns `byte(res)` |
| RiceGolomb.CodedDecodes | go/src/kanzi/entropy/RiceGolombCodec.go:155-171 | the coded value is 0 exactly for byte 0, and negating it as an `int8` (signed mode, top bit set) or taking it as a byte gives the byte back |
| RiceGolomb.CodeInStream | go/src/kanzi/entropy/RiceGolombCodec.go:130-172 | a code laid out as `EncodeLayout` says, anywhere in a stream, decodes to its value with the sign taken from the bit after it |
| RiceGolomb.RoundTrip | go/src/kanzi/entropy/RiceGolombCodec.go:57-172 | for every byte, mode and valid `logBase`, decoding the code of `val`, with any bits before and after it, returns `val` and stops right after the code |
| RiceGolomb.EndsInQuotient | go/src/kanzi/entropy/RiceGolombCodec.go:139-145 | a stream that ends during the unary quotient fails with 0 |
| RiceGolomb.EndsInRemainder | go/src/kanzi/entropy/RiceGolombCodec.go:149-153 | a stream that ends during the remainder bits fails with 0 |
| RiceGolomb.CutCode | go/src/kanzi/entropy/RiceGolombCodec.go:130-172 | any proper prefix of a code fails to decode: with 0, or with `byte(res)` when only the sign bit is missing |
| RiceGolomb.TruncatedCode | go/src/kanzi/entropy/RiceGolombCodec.go:130-172 | every proper prefix of the code of `val` fails to decode; the value returned is 0, except the magnitude when only the sign bit is cut off |

## Left out

- The bit streams (`kanzi.OutputBitStream` and `InputBitStream`) are not part of this model.
  - A stream is a `seq<bool>` and a read position.
  - `WriteBits(v, n)` appends the low `n` bits of `v`, most significant first.
  - A read fails only at the end of the sequence.
  - Write errors, and other stream error kinds, are not modelled.
- RiceGolomb.EncodeByte: the model writes codes of any length. A stream that refuses a `WriteBits` of more than 64 bits is not modelled, though `logBase = 1` with a large byte gives a code of up to 129 bits.
- RiceGolomb.DecodeByte: after a failed read the model reports the position reached. What a real stream holds after an error is not modelled.
- The accessors `Signed`, `BitStream`, `Dispose`, `Size` and `size()` are left out because they have no logic. So are the block wrappers `Encode`/`Decode`, whose `EntropyEncodeArray`/`EntropyDecodeArray` is not part of this model.
- The `Payload` objects become records in an arena, and pointers become integer handles.
  - Java: the anchor is handle 256 and `null` is -1.
  - Go: `nil` is -1.
  - The arrays `heads`, `lengths` and `buckets` and the arena are sequences inside one `Tables` value, held in the object's field `t` and reassigned by each operation.
  - Aliasing between distinct objects is therefore not modelled.
- JavaMtft.MTFT.EncodeRange, GoMtft.MTFT.MoveToFront: the ranks are computed over a copy of the block, and the block is then written back. Interleaving the reads and writes would give the same result, since each position is read once, before it is written.
- JavaMtft.MTFT.Forward, JavaMtft.MTFT.Inverse, JavaMtft.MTFT.MoveToFront: an `end` (the array length, or the wrapping `int` sum `blkptr + size`) above `blkptr` must not exceed the array length. Past it Java throws `ArrayIndexOutOfBoundsException` once the loop reaches the end of the array, and that throw is not modelled. A negative `blkptr` is not modelled either (`blkptr` is a `nat`): Java throws at the first array access.
- GoMtft.MTFT.Forward, GoMtft.MTFT.Inverse: `size` must not exceed the input length. Go panics past it, and the panic is not modelled.
- The Java no-argument constructor `MTFT()` has no member of its own: it is `JavaMtft.NewMTFT(0)`.
- JavaMtft.MTFT.constructor: it requires a size of at least 0. The throwing path is `JavaMtft.NewMTFT`.
- BucketSort.BucketSort.WithLogMaxValue: it requires `logMaxValue` in 2..16. The throwing path is `BucketSort.NewBucketSort`.
- BucketSort.BucketSort.SortInts, BucketSort.BucketSort.SortBytes: every value in the range must be below the number of counters. The source assumes this and throws `ArrayIndexOutOfBoundsException` otherwise.
- BucketSort.CountInts, BucketSort.CountBytes: the counting loop unrolled by 16 is one loop over the range. It makes the same increments in the same order.
- No part of the core is concurrent ("not thread safe" objects), so none is modelled.

## Findings

| source | as written | input that shows it | evidently intended | confidence | as-written member | corrected member |
|---|---|---|---|---|---|---|
| java/src/kanzi/util/sort/BucketSort.java:56 | `blkptr+len > input.length` is evaluated in 32-bit `int`, so a large `len` wraps negative and passes the guard (the same guard is at line 139) | `blkptr = 1`, `len = Integer.MAX_VALUE`, an array of 10 elements: `1 + Integer.MAX_VALUE` wraps to `Integer.MIN_VALUE`, which is not greater than 10 | reject every range that does not lie inside the array, and return false | not executed | BucketSort.OverflowSlipsPastGuard | BucketSort.RangeRejected |
