# OpenPGM checksums, hash table and histogram

This project models three parts of OpenPGM and proves what they are for.

**Checksums** (`checksum.c`, and its uses in `source.c` and `packet_parse.c`). One value, the
ones'-complement sum of 16-bit words (section 2 of RFC 1071), is computed byte by byte, in unrolled 16-bit words,
in 32- and 64-bit words with carries detected by hand, and in SSE2, SSE3, SSE4.1 and AVX2 lanes, with and without
copying. `OnesComplement` defines the value (`Ones`, `WordSum`, `Checksum`); `ScalarChecksum`, `CopyChecksum`,
`VectorChecksum` and `VectorCopy` run the forms with the source's loops, branches, folds and constants and prove each
equal to it for an initial csum of 0, for every buffer up to 65535 bytes, start address, byte order and accumulator
width, and exactly when it is right for another csum.
`ChecksumAlgebra` is the algebra of partial sums, `ScatterGather` and `Transmission` the sender (one packet, a
fragmented message, a retransmission), `PacketChecksum` the receiver.

**Hash table** (`hashtable.c`, `math.c`). `HashTable` is a class over an array of linked nodes that a resize relinks
in place; a ghost view (the chains, the nodes, an index) ties the links to a finite map. `SpacedPrimes` is the table
of sizes, with trial division from `Primality`. `TableSizing` is the sizing rule on counts alone, with the unsigned
arithmetic of the rule written out, and its amortised cost; every operation of the class is proved to take exactly the
step of that machine. `TableRuns` puts the two together for any history of calls.

**Histogram** (`histogram.c`). `GeometricStep` gives the log/exp step its exact meaning, `BucketRanges` builds the
boundaries and finds buckets, `Samples` says what counts and moments are, `Histograms` has the class, and
`HistogramReport` the row loop of the report.

`Memory`, `Accumulator` and `Lanes` model loads and stores by byte order, wrapping accumulators and vector
instructions. A buffer that is only read is its bytes and a start address (for alignment); a buffer that is written is
an array. Every index is checked against its buffer, so no form reads or writes outside, and every word the scalar
forms load is on a boundary of its size.

## What the proofs found

- `send_odatav` combines element i of a vector at the length of element i-1 (`openpgm/pgm/source.c:1524`), not at
  its own offset. `ScatterGather.VectorRightIff` proves which element lengths are safe: every nonempty element from the
  third on must have an even number of bytes before its predecessor. For all other lengths there is a content for which
  the packet gets a wrong checksum.
- The SSE2 and AVX2 copies align the source only; their aligned stores fault unless the destination shares its
  alignment (`VectorCopy.StoreFaults`, exact).
- `3 * nnodes` in `PGM_HASHTABLE_RESIZE` is unsigned: just above 0x55555555 nodes the product is next to nothing, and a
  table of the largest size is relinked whenever the count comes to 0x55555556. `TableSizing.CostBoundIff` proves
  that the amortised bound holds for a count limit exactly if three times the limit fits 32 bits.
- `pgm_compat_csum_partial_copy` hands a nonzero csum to the copying form. The result then stands for csum and the bytes,
  as that of `pgm_compat_csum_partial` does, exactly if the form loses no carry and either does not exchange csum's bytes
  or 257 divides csum; for an empty source, which only the 8-bit form does not return csum truncated for, exactly if
  csum is below 0x10000 or above 0xffff0000 (`ChecksumAlgebra.CsumAgreesIff`, for every form and input).
- A 64-bit accumulator does not make the 8-, 16- and 32-bit forms right for every csum: the two-step fold turns a sum of
  0x1_0000_ffff, and every later one that should fold to 1, into 0 (`ScalarChecksum.WideFoldLoses` has an input).
- The clamp `value > INT_MAX` in `pgm_histogram_add` never acts on an int; INT_MAX itself fails an assertion.
- `pgm_histogram_init` needs `declared_max - declared_min >= bucket_count - 2` for rising boundaries and does not check
  it (`BucketRanges.RisingIff`, exact).

## Model

| member | source | states |
|---|---|---|
| OnesComplement.ChecksumMeaning | openpgm/pgm/checksum.c:107-135 | the value all forms compute: congruent to the sum of the 16-bit words modulo 65535, and zero exactly if all bytes are zero |
| OnesComplement.ByteOrderIndependence | openpgm/pgm/checksum.c:100-135 | the big-endian value is the byte swap of the little-endian one, so both hosts store the same two bytes |
| OnesComplement.WordSumSwap | openpgm/pgm/checksum.c:234-235 | summing every byte in the other half of its word multiplies the sum by 256, modulo 65535 |
| OnesComplement.SwapOfOnes | openpgm/pgm/checksum.c:234-235 | exchanging the bytes of a folded sum is multiplying the sum by 256 |
| OnesComplement.WordSumConcat | openpgm/pgm/checksum.c:1614-1618 | word sums of a concatenation: the second part keeps or changes the parity of its bytes with the length of the first |
| Accumulator.Accumulate | openpgm/pgm/checksum.c:331-333 | wrapped addition with the carry detected by comparison is end-around addition; the increment does not overflow |
| Accumulator.AddCarryExact | openpgm/pgm/checksum.c:472-474 | end-around addition keeps the residue modulo 2^32-1 or 2^64-1 and is zero only for zeros |
| Accumulator.AddCarryOnes | openpgm/pgm/checksum.c:329-335 | end-around addition of a word, with any rest still to come, does not show in the ones'-complement value |
| Accumulator.Settle32Exact | openpgm/pgm/checksum.c:349-354 | the two-step fold is exact for every accumulator below 2^32 |
| Accumulator.Settle64Exact | openpgm/pgm/checksum.c:496-503 | the four-step fold is exact for every 64-bit accumulator |
| Accumulator.UnguardedCarry | openpgm/pgm/checksum.c:211-233 | a 32-bit accumulator without carry detection gives the right value exactly if the total is below 2^32 |
| Accumulator.WideFold | openpgm/pgm/checksum.c:231-233 | what the two-step fold makes of a 64-bit accumulator: the right value but for totals from 0x1_0000_ffff on that should give 1, of which it makes 0 |
| Accumulator.UnguardedIff | openpgm/pgm/checksum.c:211-233 | the value without carry detection is right exactly if nothing is lost, for both widths |
| Accumulator.TurnSum | openpgm/pgm/checksum.c:204-235 | after an odd start the final byte exchange puts the buffer's bytes right and exchanges those of the initial csum |
| Accumulator.Peel32 | openpgm/pgm/checksum.c:330 | a 32-bit word counts for its two 16-bit halves |
| Accumulator.Peel64 | openpgm/pgm/checksum.c:472 | a 64-bit word counts for its four 16-bit quarters |
| ScalarChecksum.Add16 | openpgm/pgm/checksum.c:213-217 | one 16-bit word off the buffer into the wrapped accumulator, with the exact sum kept beside it |
| ScalarChecksum.EndsSum | openpgm/pgm/checksum.c:205-230 | the odd bytes at both ends, gathered in one word, complete the sum of the whole buffer |
| ScalarChecksum.TracksEnds | openpgm/pgm/checksum.c:344-354 | an accumulator that tracks the buffer, plus the odd bytes, folded and turned, is the checksum with its initial csum |
| ScalarChecksum.WordsAligned | openpgm/pgm/checksum.c:314-327 | the 32-bit words start at the first multiple of 4 from the first even address on, unless the buffer ends before |
| Memory.OnBoundaryMod | openpgm/pgm/checksum.c:313-488 | the condition under which words of n bytes are loaded: the address is a multiple of n; every load of the scalar forms, copying or not, meets it |
| ScalarChecksum.Words32 | openpgm/pgm/checksum.c:327-336 | the 32-bit loop keeps the value of what is summed and what is left, and its fold makes room for the additions behind it |
| ScalarChecksum.Words64 | openpgm/pgm/checksum.c:468-477 | the same for the 64-bit loop |
| ScalarChecksum.PlainIff | openpgm/pgm/checksum.c:187-237 | the value of the 8- and 16-bit forms is the checksum with its initial csum exactly if no carry is lost; none is up to csum 0x8000_0000 |
| ScalarChecksum.Csum8 | openpgm/pgm/checksum.c:107-135 | with csum 0 the checksum; otherwise csum is added, with its bytes exchanged on a little-endian host, and the value is right exactly if no carry is lost |
| ScalarChecksum.Csum16 | openpgm/pgm/checksum.c:187-237 | with csum 0 the checksum, at any address; empty buffers return csum truncated; a nonzero csum counts as it is or, from an odd address, exchanged, exactly if no carry is lost |
| ScalarChecksum.Value32Iff | openpgm/pgm/checksum.c:316-354 | the 32-bit form is right exactly if the first 16-bit word loses no carry, or, in a buffer too short for a 32-bit word, no addition does; never wrong up to csum 0xfffd0002 |
| ScalarChecksum.Csum32 | openpgm/pgm/checksum.c:293-355 | for csum 0 the same value for both widths of the accumulator; for every csum its value, and exactly when that is the checksum with its initial csum |
| ScalarChecksum.WideFoldLoses | openpgm/pgm/checksum.c:316-354 | an input on which the 32-bit form with a 64-bit accumulator returns 0 in place of 1 |
| ScalarChecksum.Csum64 | openpgm/pgm/checksum.c:426-504 | the same value, for every csum |
| CopyChecksum.CsumCopy8 | openpgm/pgm/checksum.c:145-175 | the destination gets exactly the source bytes, nothing else changes, and the value is that of Csum8 |
| CopyChecksum.CsumCopy16 | openpgm/pgm/checksum.c:239-291 | the same, with the value of Csum16 |
| CopyChecksum.CsumCopy32 | openpgm/pgm/checksum.c:357-421 | the same, with the value of Csum32 for every csum |
| CopyChecksum.CopyWords64 | openpgm/pgm/checksum.c:550-597 | 64-byte blocks and the last 56 bytes are copied and tracked, and the folds leave room behind them |
| CopyChecksum.CsumCopy64 | openpgm/pgm/checksum.c:506-623 | the same, with the value of Csum64 |
| Memory.StoreOfLoad64 | openpgm/pgm/checksum.c:559-580 | storing the word that was loaded moves exactly its bytes, in either byte order |
| Lanes.AddBlob | openpgm/pgm/checksum.c:1023-1031 | widening a 16-byte blob and adding it wraps no lane while the total stays below 2^32; zero extension is the same as interleaving with zero |
| Lanes.HorizontalSum | openpgm/pgm/checksum.c:1036-1038 | shift-and-add leaves the sum of the four lanes in lane 0, and its signed extraction is not negative below 2^31 |
| Lanes.PeelBlob | openpgm/pgm/checksum.c:1023-1032 | a blob counts for the sixteen bytes it was loaded from |
| VectorChecksum.LeadAligns | openpgm/pgm/checksum.c:1012 | the drain count ends on the first multiple of 16 or 32 above the address, and on no earlier one |
| VectorChecksum.Drain | openpgm/pgm/checksum.c:1011-1017 | every drained word is summed once; the loop ends on the boundary or with less than a word left |
| VectorChecksum.StridesSse2 | openpgm/pgm/checksum.c:1018-1033 | every 128-bit load is aligned and inside the buffer, and the lanes hold the exact sum of the words they took |
| VectorChecksum.AddLanes | openpgm/pgm/checksum.c:1035-1038 | the lanes' sum reaches the 64-bit accumulator without loss or sign extension |
| VectorChecksum.AddLanes256 | openpgm/pgm/checksum.c:1325-1336 | the same for both halves of a 256-bit register |
| VectorChecksum.CsumSse2 | openpgm/pgm/checksum.c:988-1058 | the checksum, at any address and length; csum as in the scalar forms |
| VectorChecksum.CsumSse3 | openpgm/pgm/checksum.c:1149-1212 | the same |
| VectorChecksum.CsumSse41 | openpgm/pgm/checksum.c:1216-1283 | the same |
| VectorChecksum.CsumAvx2 | openpgm/pgm/checksum.c:1287-1356 | the same |
| VectorCopy.FaultOf | openpgm/pgm/checksum.c:1096-1114 | when a store faults: a whole stride is left behind the drained bytes and source and destination do not share their alignment |
| VectorCopy.Faults128 | openpgm/pgm/checksum.c:1097-1114 | in plain addresses: with b the first multiple of 16 above the first even source address, exactly if addr + n >= b + 16 and the addresses differ modulo 16 |
| VectorCopy.Faults256 | openpgm/pgm/checksum.c:1395-1412 | the same with 32 |
| VectorCopy.CsumCopySse2 | openpgm/pgm/checksum.c:1060-1143 | exact copy with the value for every csum, or a fault exactly under the condition of Faults128, stated in addresses |
| VectorCopy.CsumCopyAvx2 | openpgm/pgm/checksum.c:1358-1449 | exact copy with the value for every csum, or a fault exactly under the condition of Faults256, stated in addresses |
| ChecksumAlgebra.DoCsum | openpgm/pgm/checksum.c:1476-1530 | whichever form is installed, with csum 0 the value is the same |
| ChecksumAlgebra.Partial | openpgm/pgm/checksum.c:1552-1567 | csum folded once, the checksum added, folded once more: at most 0x10000 and congruent to csum plus the word sum, for every running csum; with csum 0 the checksum itself |
| ChecksumAlgebra.PartialCopy | openpgm/pgm/checksum.c:1574-1587 | an exact copy and the installed form's value for every csum, unless the form faults; when the SSE2 and AVX2 forms do is stated in addresses, the others never do; whether the value continues csum as Partial does is known beforehand |
| ChecksumAlgebra.CsumAgreesIff | openpgm/pgm/checksum.c:1574-1587 | for every form, host, width, address, content and csum: the value stands for csum and the bytes exactly if no carry is lost and csum's bytes are not exchanged or 257 divides csum; for an empty source exactly if the truncation of csum stands for csum |
| ChecksumAlgebra.BlockAdd | openpgm/pgm/checksum.c:1607-1620 | the masked shifts exchange the bytes of both halves, and the sum is end-around |
| ChecksumAlgebra.SwapHalvesBytes | openpgm/pgm/checksum.c:1614-1616 | in memory the exchange is of the first byte with the second and of the third with the fourth |
| ChecksumAlgebra.BlockSumOnes | openpgm/pgm/checksum.c:1607-1620 | the second sum counts 256-fold at an odd offset |
| ChecksumAlgebra.BlockSumConcat | openpgm/pgm/checksum.c:1607-1620 | sums that stand for two byte strings combine to one that stands for their concatenation |
| ChecksumAlgebra.ChainSum | openpgm/pgm/checksum.c:1552-1620 | partial sums of any cut of a message, combined at their offsets, stand for the message |
| ChecksumAlgebra.ChainedPartials | openpgm/pgm/checksum.c:1552-1567 | running partial sums over fragments of even length, the last of any, stand for csum and the whole message |
| ChecksumAlgebra.Fold | openpgm/pgm/checksum.c:1592-1602 | added back to the accumulator it makes zero modulo 65535; it is zero for 0xffffffff alone |
| ChecksumAlgebra.FinalSumResidue | openpgm/pgm/checksum.c:1592-1602 | two other accumulators fold alike exactly if they are congruent modulo 65535 |
| ChecksumAlgebra.FragmentationInvisible | openpgm/pgm/checksum.c:1592-1620 | any cut of a message of up to 65535 bytes, odd offsets included, folds to the one-shot value, and never to the "no checksum" zero |
| ChecksumAlgebra.ChainPieces | openpgm/pgm/checksum.c:1552-1620 | the operations run over the pieces, each with a form and an address of its own, leave that accumulator |
| ChecksumAlgebra.FragmentSum | openpgm/pgm/checksum.c:1552-1620 | and fold to the one-shot value of the message |
| ScatterGather.SentIsOneShot | openpgm/pgm/source.c:1710-1714 | header sum and payload accumulator, combined and folded, give the one-shot value of the packet |
| ScatterGather.SendOdatav | openpgm/pgm/source.c:1512-1527 | all elements are copied behind each other, and what is sent is VectorChain, each element combined at its predecessor's length; None exactly if the copy of some element, from its address to its place in the payload, faults |
| ScatterGather.SafeVector | openpgm/pgm/source.c:1520-1525 | with safe element lengths that accumulator stands for the payload |
| ScatterGather.VectorRightIff | openpgm/pgm/source.c:1520-1527 | it gives the packet's checksum for all contents exactly if the lengths are safe; two elements always are |
| ScatterGather.Advance | openpgm/pgm/source.c:2103-2110 | moves on by exactly the piece that was copied, and to the next element if one is used up |
| ScatterGather.FillFrom | openpgm/pgm/source.c:2118-2123 | the next piece is as long as the element and the packet allow, lands behind the others and is combined at its offset; it fails exactly if the copy of those bytes, from where the element stands to behind the others, faults |
| ScatterGather.SendFragment | openpgm/pgm/source.c:2083-2126 | the packet holds the next tsdu_length bytes of the data, its checksum is the one-shot value and not zero, and the place in the vector moves on by as much; None exactly if the copy of what some element has in the packet faults |
| Transmission.SendApdu | openpgm/pgm/source.c:2028-2174 | the packets' payloads put together are the message; all but the last are full; each is intact with its own header; it fails exactly if some packet faults, with the packets before that one built |
| Transmission.Retransmit | openpgm/pgm/source.c:2500-2511 | a changed header with the kept payload sum gives the one-shot checksum of the changed packet |
| Transmission.IntactIsAccepted | openpgm/pgm/packet_parse.c:273-300 | hosts of either byte order accept an intact packet from hosts of either byte order |
| PacketChecksum.Check | openpgm/pgm/packet_parse.c:263-300 | the packet is left as it was; with bytes 6 and 7 zero it is accepted exactly if byte 4 is neither 4 nor 5, otherwise exactly if all its words sum to zero modulo 65535 |
| PacketChecksum.AcceptedBytes | openpgm/pgm/include/pgm/packet.h:81-82 | the verdict in bytes of the wire |
| PacketChecksum.AcceptedIff | openpgm/pgm/packet_parse.c:274-287 | a packet with a checksum is accepted exactly if all its words sum to zero modulo 65535 |
| PacketChecksum.SentIsAccepted | openpgm/pgm/packet_parse.c:274-287 | what any host seals any host accepts |
| PacketChecksum.SingleByteDetected | openpgm/pgm/packet_parse.c:274-299 | a single changed byte in an accepted packet with a checksum goes unnoticed exactly if it clears the checksum field and the packet is not ODATA or RDATA |
| PacketChecksum.SingleWordDetected | openpgm/pgm/packet_parse.c:274-287 | a single changed 16-bit word outside the checksum field of an accepted packet with a checksum goes unnoticed exactly if the change is from 0 to 0xffff or back |
| SpacedPrimes.TableIsSpaced | openpgm/pgm/math.c:31-67 | each entry of the table is above its predecessor and at most double; the first is 11, the last 13845163 |
| SpacedPrimes.TableIs | openpgm/pgm/math.c:31-67 | all 34 numbers |
| SpacedPrimes.ArePrimes | openpgm/pgm/math.c:31-67 | those up to 360163 are primes |
| Primality.ByRounds | openpgm/pgm/math.c:31-67 | a number is prime if no number up to its root that 2 and 3 do not divide divides it, nor 2 nor 3 |
| SpacedPrimes.SpacedPrimesClosest | openpgm/pgm/math.c:69-76 | the loop finds Closest |
| SpacedPrimes.ClosestIs | openpgm/pgm/math.c:69-76 | Closest is the least listed number above num if there is one, else the last; from 11 on at most double num |
| TableSizing.OneResizeBalances | openpgm/pgm/hashtable.c:52-59 | one resize, if due, establishes both load bounds whatever the load was |
| TableSizing.ResizeDueIs | openpgm/pgm/hashtable.c:52-59 | the rule with its product in 32 bits, for every size and every unsigned count |
| TableSizing.SizeIsListed | openpgm/pgm/hashtable.c:227-248 | the size is a listed number after every run |
| TableSizing.RunKeepsBounds | openpgm/pgm/hashtable.c:52-59 | both load bounds hold after every run, wrapped counts included |
| TableSizing.SettleCost | openpgm/pgm/hashtable.c:52-59 | the credit held by size and count pays for a resize |
| TableSizing.StepCost | openpgm/pgm/hashtable.c:165-225 | every call's relinking is paid by its fee of two and the change of credit |
| TableSizing.AmortisedCost | openpgm/pgm/hashtable.c:165-248 | all resizes of a run together relink at most two nodes for every insert and remove, and none for remove_all |
| TableSizing.FeesAre | openpgm/pgm/hashtable.c:165-248 | the fees are two for every call but remove_all |
| TableSizing.StaysWithinIff | openpgm/pgm/hashtable.c:165-225 | the limit of a run bounds the count after every part of it |
| TableSizing.CostBoundIff | openpgm/pgm/hashtable.c:52-59 | the bound holds for all runs within a count limit exactly if three times the limit fits 32 bits |
| TableSizing.Direction | openpgm/pgm/hashtable.c:52-59 | in a balanced table inserts never shrink and removes never grow |
| HashTable.LookupNode | openpgm/pgm/hashtable.c:115-136 | the slot found leads to the key's node, or the key is in no bucket and the slot is the end of its chain |
| HashTable.Append | openpgm/pgm/hashtable.c:181 | writing the slot links the new node behind its chain and disturbs no other link |
| HashTable.Unlink | openpgm/pgm/hashtable.c:200-201 | writing the slot takes one node out of its chain and disturbs no other link |
| HashTable.AppendSound | openpgm/pgm/hashtable.c:178-182 | filing, keys and count are kept by an insert |
| HashTable.RemovedSound | openpgm/pgm/hashtable.c:197-203 | filing, keys and count are kept by a remove |
| HashTable.RehashChain | openpgm/pgm/hashtable.c:238-244 | one old chain is relinked node by node to the fronts of the new buckets, one relinking for each node |
| HashTable.Rehash | openpgm/pgm/hashtable.c:235-244 | following the links afterwards visits the nodes in the buckets their hashes choose, each pushed in the order of the old chains; as many nodes are relinked as the old chains held |
| HashTable.RehashFiled | openpgm/pgm/hashtable.c:227-248 | a resize loses, duplicates and misfiles no node |
| HashTable.ResizeReverses | openpgm/pgm/hashtable.c:235-244 | of two nodes a resize files together, the one it visits later comes to stand before the other |
| HashTable.LengthsAreCount | openpgm/pgm/hashtable.c:182-203 | the lengths of the chains add up to the number of keys |
| HashTable.Table.constructor | openpgm/pgm/hashtable.c:67-87 | a new table is the empty map, of 11 buckets |
| HashTable.Table.Lookup | openpgm/pgm/hashtable.c:138-149 | the map's value of the key, if there is one |
| HashTable.Table.Resize | openpgm/pgm/hashtable.c:227-248 | the same nodes and keys in a fresh array of the chosen size; the relinkings counted on the way are one for each key |
| HashTable.Table.ResizeIfDue | openpgm/pgm/hashtable.c:52-59 | the load bounds hold afterwards, content is unchanged, and the cost is that of Settle |
| HashTable.Table.Insert | openpgm/pgm/hashtable.c:165-184 | the map gains the key, or is unchanged if the key was there; size, count and cost take the step of the sizing machine |
| HashTable.Table.Remove | openpgm/pgm/hashtable.c:186-208 | the result says whether the key was there, and the map loses it; size, count and cost take their step |
| HashTable.Table.RemoveAll | openpgm/pgm/hashtable.c:210-225 | the empty map, back at 11 buckets, nothing relinked |
| TableRuns.CountIsKeys | openpgm/pgm/hashtable.c:165-225 | the sizing machine counts the keys of the map after any history |
| TableRuns.HistoryCost | openpgm/pgm/hashtable.c:165-248 | while the map stays within the limit, all resizes of a history of calls together relink at most two nodes for every insert and remove, and none for remove_all |
| TableRuns.Replay | openpgm/pgm/hashtable.c:165-248 | after any history the table is the map the history leaves, its size is listed and its relinking within the bound |
| GeometricStep.NextIsRoundedRoot | openpgm/pgm/histogram.c:176-184 | the step is floor(x + 0.5) for the real x whose k-th power is current^(k-1) * declared_max |
| GeometricStep.RoundsOnce | openpgm/pgm/histogram.c:176-184 | only one integer is that rounded root |
| GeometricStep.RoundsIsFloor | openpgm/pgm/histogram.c:176-184 | a number is the rounded root exactly if it is floor(x + 0.5) for that real x |
| GeometricStep.Bernoulli | openpgm/pgm/histogram.c:174-184 | Bernoulli's inequality, over the natural numbers |
| GeometricStep.StepAtMostArithmetic | openpgm/pgm/histogram.c:174-184 | the geometric step is at most the arithmetic one, half a unit of rounding apart |
| GeometricStep.StepLeavesRoom | openpgm/pgm/histogram.c:173-190 | with room for k entries a step leaves room for the other k - 1 |
| BucketRanges.InitializeBucketRange | openpgm/pgm/histogram.c:161-192 | the array starts with 0 and the declared minimum, and with k entries left each next one is the rounded k-th root of current^(k-1) * declared_max, or current + 1 where that is no more than current; the last entry is untouched |
| BucketRanges.AfterFollows | openpgm/pgm/histogram.c:176-189 | the next boundary is the rounded root or one more, whatever number the rounded root is, and there is one |
| BucketRanges.BoundaryRoom | openpgm/pgm/histogram.c:173-190 | the boundaries rise and never run out of room |
| BucketRanges.LastBoundary | openpgm/pgm/histogram.c:173-190 | the last boundary before INT_MAX is the declared maximum |
| BucketRanges.RisingIff | openpgm/pgm/histogram.c:130-192 | all boundaries rise from 0 through INT_MAX exactly if declared_max - declared_min >= bucket_count - 2 |
| BucketRanges.BucketIndex | openpgm/pgm/histogram.c:194-219 | the search ends at an i with ranges[i] <= value < ranges[i + 1], for any array whose ends enclose the value |
| BucketRanges.OneBucket | openpgm/pgm/histogram.c:194-219 | with rising boundaries there is only one such i |
| Samples.CountsAnother | openpgm/pgm/histogram.c:110 | one more sample counts in its own bucket and in no other |
| Samples.CountsTotal | openpgm/pgm/histogram.c:118-128 | the counts of all buckets add up to the number of samples |
| Samples.TotalBetween | openpgm/pgm/histogram.c:100-116 | the sum lies between what the lower and the upper bounds of the buckets make of the counts |
| Samples.MomentsInequality | openpgm/pgm/histogram.c:323-326 | the square of the sum is at most the number of samples times the sum of squares |
| Samples.VarianceNonNegative | openpgm/pgm/histogram.c:323-326 | so the variance under the square root is not negative |
| Histograms.FitsAnother | openpgm/pgm/histogram.c:110-115 | a sample fits the fields exactly if its own count and the two sums take it |
| Histograms.Histogram.Init | openpgm/pgm/histogram.c:130-149 | its assertions hold exactly for a minimum below INT_MAX and two buckets or more; then the boundaries are 0, the minimum, the geometric ones up to 0x7ffffffe, and 0x7fffffff, and the histogram is valid exactly if they have room |
| Histograms.Histogram.Accumulate | openpgm/pgm/histogram.c:100-116 | with a count of 1 the assertions hold exactly if the fields take the sample, and then they hold it; a count of -1 takes it back; overflows wrap and show as negative values |
| Histograms.Histogram.Add | openpgm/pgm/histogram.c:57-71 | the assertions hold exactly for values below INT_MAX that overflow nothing; then counts and moments are those of the samples with the new one, negative values counted as 0 |
| Histograms.Histogram.TotalCount | openpgm/pgm/histogram.c:118-128 | the number of samples, wrapped to an int if there are more than INT_MAX |
| Histograms.Histogram.Moments | openpgm/pgm/histogram.c:323-326 | in every valid histogram the sum is between its bounds and the variance is not negative |
| HistogramReport.SkipEmpty | openpgm/pgm/histogram.c:291-295 | the run of empty buckets ends where the next bucket is not empty |
| HistogramReport.WriteRow | openpgm/pgm/histogram.c:281-306 | one row, correct, and past and remaining still make the given whole |
| HistogramReport.WriteRows | openpgm/pgm/histogram.c:277-307 | correct rows cover every bucket once and in order; at the end past is the total and past and remaining make the given whole |
| HistogramReport.OneReport | openpgm/pgm/histogram.c:277-307 | there is only one way to cover the buckets with correct rows, so the counts determine the report |
| HistogramReport.WriteAscii | openpgm/pgm/histogram.c:233-308 | in every row past, current and remaining make the total count; while that fits an int it is the number of samples, and remaining ends at 0 |

## Left out

- `do_csum_vector`, `do_csumcpy_vector` (inline assembly), the MMX forms, `do_csum_memcpy`, `pgm_inet_checksum`, CPU detection and prefetching.
- SpacedPrimes.ArePrimes: covers the 25 entries up to 360163; the nine above are pinned as numbers, their primality is not proved.
- Unaligned 16-, 32- and 64-bit stores of the scalar copies are taken to work, as on the hosts the source selects them for.
- Reads are modelled on byte sequences, so a source that overlaps its destination is not captured; the source declares both `restrict`.
- HashTable.Table.Lookup: tells a missing key from a stored NULL, which the C result cannot.
- Keys are taken up to `key_equal_func`, which is required to be an equivalence that the hash function respects; `pgm_hash_t` is a natural number.
- `lookup_extended`, `unref`, `destroy`, freeing and allocation failure of the hash table, and its string and integer hash helpers.
- Floating-point rounding of log, exp and sqrt: the boundary step and the variance are exact.
- Signed overflow in the histogram is taken as two's-complement wrapping, and boundaries beyond INT_MAX (possible only where RisingIff says they do not rise) as unbounded.
- The text of the report (graph, percentages, bucket names), the list of registered histograms, and times as samples.
- The rest of the sender: sequence numbers, windows, rate limits, sockets, options and parity; headers are given bytes with a zero checksum field.
- Sending continues on the next call after a would-block; here a message is sent in one call.
