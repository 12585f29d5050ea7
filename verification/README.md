# Models of the core algorithms of a CREDITS blockchain node

This project models the parts of the node in which a small mistake corrupts data or
money, and proves what they are for: the bundled Snappy compressor, the Ed25519
signatures, the BLAKE2sp tree hash, the integer codec of the block database, the block
store with its writer thread, the balance cache and the smart-contract index.

The main results:

- **Snappy.** Compressing a byte string shorter than 2^32 and decompressing the result
  returns the string, exactly when the compressed tags are fewer than 2^32 bytes or arrive
  in smaller pieces, and never returns otherwise (`SnappyRoundTrip.RoundTrip`). The output of a compression is at
  most 32 + n + n/6 bytes for every n, and a caller's buffer of that size is enough for the
  deliberate over-writes too (`SnappyRaw.RawCompress`). Decompression into a flat array, a
  scattered buffer, a list of buffers or a mere validator is proved equal to one reference
  meaning of a tag stream, `SnappyFormat.Decompressed`, for every way in which the input
  arrives in pieces, so all four accept the same streams and write the same bytes. A call
  that fails leaves a sink with a beginning of what the tags mean
  (`SnappyUncompress.Uncompress`).
- **Ed25519.** `sc_reduce` and `sc_muladd` return the residue modulo the group order for
  all inputs; `fe_mul`, `fe_sq`, `fe_sq2`, `fe_tobytes`, `fe_frombytes`, `fe_invert` are
  exact modulo 2^255 - 19; every machine operation stays inside int32 or int64, because
  the models use bounded integer types. The point formulas compute the addition law of
  the curve, `slide` and the radix-16 digits represent the scalar, both scalar
  multiplications return the right multiples, decoding inverts encoding and fails exactly on
  strings without a point, and every
  signature made with a generated key pair verifies (`Ed25519Sign.SignThenVerify`).
- **BLAKE2sp.** However a message is cut into calls of update, the streamed digest is that
  of the one-shot function and of the tree definition. As long as the compression function
  gives no two of its calls the same result, different keys or messages have different
  digests (`Blake2Collisions.TreeTells`).
- **Block store.** In every interleaving of saves and writer steps the tables hold exactly
  the written blocks, and following predecessors from the last hash meets each block of
  the chain once. Saved in chain order, in any interleaving, a reopened store recovers its
  last hash and count (`ChainRescan.Restart`); any other stops at the end of the longest run
  of linked blocks (`ChainRescan.ReopenAny`). Over every interleaving of `writeLastBlock`
  calls with the writer it is proved when all blocks load and when they are in order
  (`ChainCalls.EveryRun`).
- **Chain indexes.** The segment index does not depend on the order in which blocks
  arrive. Cached balances equal those of an uncached walk. Over every run of new blocks and
  refreshes the smart-contract index equals a scan of the whole chain if and only if no
  contract is deployed in two passes (`SmartSchedule.Run`).

How the code is written down. Code that updates buffers, arrays or fields is a method or a
class with those arrays and fields. Shifts and masks are written as floor division,
remainder and multiplication by powers of two; an `or` of disjoint bits is a sum.
Straight-line code over numbered limbs is written as loops over the limb index, in the
same order. Elliptic-curve point structs, which the source passes by pointer, are values.
Congruences and curve equations stand behind a quantifier over `Congruence.Opened`, which is
always true; it only keeps their products folded where a proof does not use them.

Hypotheses. The curve theorems assume `Ed25519Group.Laws`: the curve points form an abelian
group under the addition law, its denominators do not vanish and the residues modulo
2^255 - 19 are a field. The signature theorem also assumes that the base point has order
L and that the precomputed tables hold the multiples they are named for
(`Ed25519Sign.Setup`); the hash is an arbitrary function from byte strings to 64 bytes.
The scalar-multiplication algorithms are proved besides for any abelian group.

Where comments and code disagree, the code is followed:

- The comments of `fe_add` and `fe_sub` ask for operands below 1.1 * 2^25. The point
  formulas pass operands of up to 2.02 * 2^25. The sums still stay below the bound that
  `fe_mul` needs, which is what is proved.
- `slide` can drop a carry, but only for scalars of 2^255 or more, which its callers never
  pass. `Ed25519Slide.Slide` says what happens for all 32-byte scalars.

## Findings

Three things that the code is for do not hold of it without a condition.

- **Long compressed strings in a flat array.** The decompressor keeps the length of a
  region in 32 bits, while a flat array is one region of any length. With 2^32 or more bytes
  of tags it skips too little, reads old bytes again and ends, if nothing is wrong with them,
  in a loop whose turns change nothing (`SnappyDecompressor.Decompressor.Turn`). The input:
  2^32 - 1 bytes of big-endian 16-bit counters, restarted every 65536 bytes; no four bytes
  repeat inside a fragment, so the tags take more than 2^32 bytes
  (`SnappyOverlong.Overlong`). The condition, known before the call: decompression of a valid
  string from a flat array succeeds if its tags are fewer than 2^32 bytes and never returns
  otherwise (`SnappyUncompress.InternalUncompress`). Inputs n with 32 + n + n/6 below 2^32 always come
  back (`SnappyRoundTrip.RoundTripBelow`).
- **Blocks written before the writer is done.** `writeLastBlock` takes the number of a block
  from the count of written blocks, not counting those in the queue. The input: two blocks
  written before the writer wakes up; loading the first then returns the second
  (`ChainRescan.LostBlock`). The condition, for every run: all blocks load if and only if each
  call reads the size with all earlier blocks counted, and they are in order if and only if
  each call reads the last hash with the queue empty (`ChainCalls.EveryRun`).
- **Contracts deployed again.** A refresh of the smart-contract index overwrites the origin of
  a contract with the oldest deployment of that refresh. The input: a contract deployed in two
  blocks with a refresh after each (`SmartContracts.Redeployed`). The condition: the origins are
  those of one scan if and only if no contract is deployed in two passes
  (`SmartContracts.EverySchedule`, `SmartSchedule.Run`).

## Model

| member | source | states |
|---|---|---|
| `SnappyFormat.DecodeConcat` | snappy/snappy.cc:952-955 | the tags of fragments appended one after the other decode as one stream, each where the last one ended |
| `SnappyFormat.ExtendRepeats` | snappy/snappy.cc:128-139 | a copy leaves the output as it was and each new byte repeats the byte one offset back |
| `SnappyFormat.ExtendUnique` | snappy/snappy.cc:128-139 | no other bytes have that property |
| `SnappyFormat.ExtendSplit` | snappy/snappy.cc:128-139 | a copy may be made in two parts |
| `SnappyVarint.Parse32IsVarint32` | snappy/snappy-stubs-internal.h:485-505 | the unrolled parser reads every input as the reference definition of a 32-bit varint does, failures included |
| `SnappyVarint.Encode32` | snappy/snappy-stubs-internal.h:507-533 | writes the one encoding of a 32-bit number, at most five bytes, and nothing else |
| `SnappyVarint.Varint32RoundTrip` | snappy/snappy-stubs-internal.h:485-533 | what is encoded parses back, whatever follows it |
| `SnappyTable.CharTable` | snappy/snappy-internal.h:186-219 | each of the 256 entries is laid out as documented |
| `SnappyTable.EntryFields` | snappy/snappy-internal.h:167-185 | the fields of an entry are the extra bytes, high offset bits and length that the format gives its tag |
| `SnappyCopy.IncrementalCopySlow` | snappy/snappy.cc:128-139 | the byte-wise copy is the reference copy and leaves the rest of the buffer alone |
| `SnappyCopy.PeriodDoubles` | snappy/snappy.cc:144-258 | a run that repeats with some offset repeats with twice the offset |
| `SnappyCopy.ExpandPattern` | snappy/snappy.cc:184-204 | doubling a short pattern in place ends with an offset of at least eight and the right bytes |
| `SnappyCopy.IncrementalCopy` | snappy/snappy.cc:144-258 | for every offset, length and slop the result is that of the byte-wise copy and nothing at or past the buffer limit changes |
| `SnappyWriters.ArrayWriter.Append` | snappy/snappy.cc:1175-1184 | accepts exactly what fits and then extends the output by it |
| `SnappyWriters.ArrayWriter.TryFastAppend` | snappy/snappy.cc:1186-1197 | the sixteen-byte store appends just the wanted bytes or nothing |
| `SnappyWriters.ArrayWriter.AppendFromSelf` | snappy/snappy.cc:1199-1212 | accepts exactly the copies whose offset and length are in range and then extends the output by the reference copy |
| `SnappyWriters.Validator.Append` | snappy/snappy.cc:1259-1262 | accepts what the flat writer accepts |
| `SnappyWriters.Validator.AppendFromSelf` | snappy/snappy.cc:1266-1272 | accepts what the flat writer accepts |
| `SnappyWriters.ScatteredWriter.SlowAppend` | snappy/snappy.cc:1410-1438 | appending across blocks keeps the concatenation of the blocks equal to the output; a refusal leaves a beginning of the bytes, in full blocks |
| `SnappyWriters.ScatteredWriter.Append` | snappy/snappy.cc:1365-1375 | as for the flat writer |
| `SnappyWriters.ScatteredWriter.TryFastAppend` | snappy/snappy.cc:1377-1389 | as for the flat writer |
| `SnappyWriters.ScatteredWriter.SlowAppendFromSelf` | snappy/snappy.cc:1441-1462 | a copy across blocks is the reference copy of the whole output |
| `SnappyWriters.ScatteredWriter.AppendFromSelf` | snappy/snappy.cc:1391-1404 | as for the flat writer |
| `SnappyWriters.ScatteredWriter.Flush` | snappy/snappy.cc:1480-1490 | the sink receives the output, also after a refusal, when the last block is counted twice |
| `SnappyIOVec.IOVecWriter.Append` | snappy/snappy.cc:1018-1046 | accepts exactly what fits the length and the buffers, empty ones included, and then extends the output by it; past the buffers it fills them and fails |
| `SnappyIOVec.IOVecWriter.TryFastAppend` | snappy/snappy.cc:1048-1061 | as for the flat writer |
| `SnappyIOVec.IOVecWriter.Locate` | snappy/snappy.cc:1073-1087 | finds the buffer and place of the byte one offset back |
| `SnappyIOVec.IOVecWriter.AppendFromSelf` | snappy/snappy.cc:1063-1130 | writes the reference copy as far as the buffers reach; fails exactly if offset or length is out of range, or if the buffers are too short and the source reaches into the last one: otherwise the failed inner append goes unnoticed |
| `SnappyDecompress.Writer.Append` | snappy/snappy.cc:976-1462 | one contract for the four writers; what a refusal leaves for the sink is a beginning of the bytes |
| `SnappyDecompress.Writer.AppendFromSelf` | snappy/snappy.cc:976-1462 | one contract for the four writers, with the result and the bytes of a copy that a list of buffers cuts off |
| `SnappyDecompressor.Decompressor.ReadUncompressedLength` | snappy/snappy.cc:672-693 | reads across pieces what the flat parser reads, and consumes as much |
| `SnappyDecompressor.Decompressor.RefillTag` | snappy/snappy.cc:797-852 | provides a whole tag without losing input, and fails exactly at the end of input or on a truncated tag; from a flat array of 2^32 bytes or more it fails only by never returning |
| `SnappyDecompressor.Decompressor.Turn` | snappy/snappy.cc:829-836 | one turn of the loop that joins a split tag: one that adds nothing leaves window, position and reader as they were, so the loop takes it for ever; below 2^32 bytes that happens only at the end of input |
| `SnappyDecompressor.Decompressor.Stitch` | snappy/snappy.cc:819-838 | a tag cut by piece boundaries is joined from as many pieces as it takes; in a flat array of 2^32 bytes or more the loop always comes to a turn that changes nothing |
| `SnappyDecompressor.Decompressor.TakeLiteral` | snappy/snappy.cc:759-775 | a literal spread over any number of pieces continues the decoding or ends it as the reference does |
| `SnappyDecompressor.Decompressor.DecompressAllTags` | snappy/snappy.cc:698-794 | for every writer the outcome is that of the reference decoding, however the input is cut; if 2^32 bytes of tags or more lie in one flat array, a stream due a result makes the call endless; what is written is a beginning of the result |
| `SnappyUncompress.InternalUncompressAllTags` | snappy/snappy.cc:866-878 | accepts exactly when the tags decode to the stated length, fit the writer and are not too long for a flat array; never returns on such tags that are too long; leaves the writer a beginning of what the tags mean |
| `SnappyUncompress.InternalUncompress` | snappy/snappy.cc:855-863 | accepts exactly the valid streams that fit the writer and whose tags are fewer than 2^32 bytes if they lie in a flat array, and writes their meaning; never returns on the valid ones whose tags are too long |
| `SnappyUncompress.RawUncompress` | snappy/snappy.cc:1221-1229 | the same for a flat array |
| `SnappyUncompress.IsValidCompressed` | snappy/snappy.cc:1276-1285 | true exactly on the streams the flat writer accepts |
| `SnappyUncompress.RawUncompressToIOVec` | snappy/snappy.cc:1135-1145 | the same for a list of buffers, if they are long enough together |
| `SnappyUncompress.IntoBuffer` | snappy/snappy.cc:1533-1538 | through a buffer of the sink: what was produced is appended, whether or not the call succeeds |
| `SnappyUncompress.IntoBlocks` | snappy/snappy.cc:1539-1543 | through blocks: likewise |
| `SnappyUncompress.Uncompress` | snappy/snappy.cc:1516-1544 | the same for a sink, with or without a buffer of its own; the sink gets nothing without a good header, never more than the header states, and of tags that have a meaning a beginning of it, all of it on success |
| `SnappyEmit.LiteralDecodes` | snappy/snappy.cc:262-305 | an emitted literal decodes to its bytes |
| `SnappyEmit.CopyDecodes` | snappy/snappy.cc:307-354 | an emitted copy of any length, cut into pieces, decodes to one copy |
| `SnappyEmit.LiteralCost` | snappy/snappy.cc:262-305 | the head of a literal costs at most one byte more than a sixtieth of its length |
| `SnappyEmit.CopyCost` | snappy/snappy.cc:307-354 | a copy is shorter than what it replaces |
| `SnappyEmit.CopyRate` | snappy/snappy.cc:329-354 | a copy takes at most three bytes for every 64, and three more |
| `SnappyEmitters.EmitLiteral` | snappy/snappy.cc:262-305 | writes that literal; the fast path touches at most seventeen bytes |
| `SnappyEmitters.EmitCopyAtMost64` | snappy/snappy.cc:307-327 | writes that copy; its four-byte store touches nothing further |
| `SnappyEmitters.EmitCopy` | snappy/snappy.cc:329-354 | writes those copies and touches at most two bytes past them |
| `SnappyMatch.FindLsb32` | snappy/snappy-stubs-internal.h:434-445 | the portable scan returns the place of the lowest set bit |
| `SnappyMatch.FindLsb64` | snappy/snappy-stubs-internal.h:449-457 | the same for 64 bits |
| `SnappyMatch.BitToByte` | snappy/snappy-internal.h:120-122 | the lowest set bit of the exclusive or of two little-endian words of any length, divided by eight, is the first differing byte |
| `SnappyMatch.CompareWord` | snappy/snappy-internal.h:115-126 | extends a match by the equal bytes of a word and stops at a true difference |
| `SnappyMatch.FindMatchLength64` | snappy/snappy-internal.h:88-136 | returns the length of the longest match before the limit, and whether it is below eight |
| `SnappyMatch.FindMatchLength32` | snappy/snappy-internal.h:138-161 | the portable version returns the same |
| `SnappyCompress.Log2Floor` | snappy/snappy-stubs-internal.h:417-432 | returns the place of the highest set bit |
| `SnappyCompress.GetHashTable` | snappy/snappy.cc:368-392 | a zeroed table whose size is the least power of two from 2^8 on that holds the input, but at most 2^14 |
| `SnappyCompress.FindCandidate` | snappy/snappy.cc:498-519 | returns the first place, in the pattern of skips, where the last place looked at with the same hash has the same four bytes, and fails only if there is none before the margin |
| `SnappyCompress.ProbesAtFirst` | snappy/snappy.cc:480-497 | no place is skipped among the first 32 |
| `SnappyCompress.EmitRun` | snappy/snappy.cc:521-525 | after the literal the output decodes to all input before the match |
| `SnappyCompress.EmitMatch` | snappy/snappy.cc:539-549 | the copy is as long as the match goes, and after it the output decodes to all input up to its end |
| `SnappyCompress.EmitMatches` | snappy/snappy.cc:535-566 | the same over a row of copies, while table entries stay behind the input position |
| `SnappyCompress.CompressScaled` | snappy/snappy.cc:450-577 | the whole loop: the output decodes to the fragment, grows it by at most a sixtieth and one byte, and by at least one byte if no four bytes repeat; n equal bytes take at most 2 + 3(n/64 + 1) |
| `SnappyCompress.CompressFragment` | snappy/snappy.cc:450-577 | the same for each table size; over-writes end four bytes past that bound, inside MaxCompressedLength |
| `SnappyRoundTrip.NextFragment` | snappy/snappy.cc:899-933 | the next fragment is the next bytes of the input however the source cuts them |
| `SnappyRoundTrip.CompressBlock` | snappy/snappy.cc:898-959 | one turn: the tags so far decode to the input so far |
| `SnappyRoundTrip.Compress` | snappy/snappy.cc:885-967 | at most 32 + n + n/6 bytes for every n; below 2^32 what is written means the input; without matches the tags are longer than the input by a byte per fragment |
| `SnappyRoundTrip.RoundTrip` | snappy/snappy.cc:698-967 | compressing and decompressing returns the input if and only if the tags are fewer than 2^32 bytes or do not lie in a flat array; otherwise the decompression never returns |
| `SnappyRoundTrip.RoundTripBelow` | snappy/snappy.cc:73-95 | it always does if 32 + n + n/6 is below 2^32 |
| `SnappyOverlong.FoursDiffer` | snappy/snappy.cc:502-519 | no four bytes of the counters repeat within a fragment |
| `SnappyOverlong.Overlong` | snappy/snappy.cc:797-852 | a string of 2^32 - 1 counters with a valid compressed form that never decompresses from a flat array |
| `SnappyRaw.CompressInto` | snappy/snappy.cc:939-958 | a fragment compressed in place, over-writes included, stays inside what the whole input may take |
| `SnappyRaw.RawCompress` | snappy/snappy.cc:1287-1297 | writes only the first 32 + n + n/6 bytes of the caller's buffer, and what it writes means the input |
| `Ed25519Limbs.Carry` | ed25519/src/sc.c:120-122 | a carry, rounded or not, keeps the number and leaves a limb of 21 bits |
| `Ed25519Limbs.FoldIdentity` | ed25519/src/sc.c:78-83 | the six multipliers are the limbs of 2^252 - L |
| `Ed25519Limbs.Fold` | ed25519/src/sc.c:78-84 | folding a high limb keeps the number modulo L and fits int64 |
| `Ed25519Passes.FoldPass` | ed25519/src/sc.c:78-119 | the same for six limbs in turn |
| `Ed25519Passes.RoundPass` | ed25519/src/sc.c:120-152 | rounding carries keep the number and bound the limbs |
| `Ed25519Passes.FloorPass` | ed25519/src/sc.c:238-273 | floor carries leave digits of 21 bits |
| `Ed25519Reduce.CarryIsSign` | ed25519/src/sc.c:231-280 | the carry out of the last floor pass is the sign of the number |
| `Ed25519Reduce.Reduce` | ed25519/src/sc.c:78-313 | from any limbs below 2^34 the result is the residue modulo L, in digits |
| `Ed25519MulAdd.LoadWide` | ed25519/src/sc.c:36-59 | the 24 limbs of 64 bytes are their number |
| `Ed25519MulAdd.LoadNarrow` | ed25519/src/sc.c:363-398 | the 12 limbs of 32 bytes are their number |
| `Ed25519MulAdd.StoreScalar` | ed25519/src/sc.c:315-346 | the packed bytes are the number of the limbs |
| `Ed25519MulAdd.Columns` | ed25519/src/sc.c:447-470 | the columns of products are the number ab + c and fit int64 |
| `Ed25519MulAdd.MulAddLimbs` | ed25519/src/sc.c:447-775 | the limbs of (ab + c) mod L |
| `Ed25519MulAdd.ScReduce` | ed25519/src/sc.c:35-347 | the first 32 bytes become the 64-byte number modulo L; the others stay |
| `Ed25519MulAdd.ScMulAdd` | ed25519/src/sc.c:362-809 | writes (ab + c) mod L for all 32-byte numbers, and nothing else |
| `Ed25519Carry.Carry` | ed25519/src/fe.c:716-728 | a rounding carry keeps the number |
| `Ed25519Carry.Wrap` | ed25519/src/fe.c:730-732 | the carry out of the top limb, times 19, keeps the number modulo p |
| `Ed25519FieldMul.Term` | ed25519/src/fe.c:560-683 | the factors 2 and 19 of each product are those of its column |
| `Ed25519FieldMul.FeMul` | ed25519/src/fe.c:539-748 | for operands below 1.65 * 2^26 and 1.65 * 2^25 the result is the product modulo p, below 1.01 * 2^25 and 1.01 * 2^24 |
| `Ed25519FieldSq.FeSq` | ed25519/src/fe.c:965-1110 | the same for the square, from half as many products |
| `Ed25519FieldSq.FeSq2` | ed25519/src/fe.c:1125-1280 | the same for twice the square |
| `Ed25519FromBytes.FeFromBytes` | ed25519/src/fe.c:297-360 | the low 255 bits modulo p, in tight limbs |
| `Ed25519ToBytes.EstimateQuotient` | ed25519/src/fe.c:1388-1398 | the nested shifts compute one floor division of the whole number |
| `Ed25519ToBytes.QuotientExact` | ed25519/src/fe.c:1341-1365 | the estimated quotient is the exact one |
| `Ed25519ToBytes.Settle` | ed25519/src/fe.c:1399-1438 | subtracting it leaves the digits of the residue |
| `Ed25519FieldBytes.FeToBytes` | ed25519/src/fe.c:1366-1471 | writes the residue in [0, p) of any limbs below 1.1 * 2^26 and 1.1 * 2^25 |
| `Ed25519FieldBytes.Canonicalize` | ed25519/src/fe.c:297-360 | reading and writing reduces the low 255 bits modulo p |
| `Ed25519FieldBytes.FeIsNegative` | ed25519/src/fe.c:460-466 | true exactly if the residue is odd |
| `Ed25519FieldBytes.FeIsNonzero` | ed25519/src/fe.c:478-520 | true exactly if the residue is not zero |
| `Ed25519FieldOps.FeAdd` | ed25519/src/fe.c:81-123 | the exact sum, with the bounds of the operands added |
| `Ed25519FieldOps.FeSub` | ed25519/src/fe.c:1295-1337 | the exact difference, likewise |
| `Ed25519FieldOps.FeNeg` | ed25519/src/fe.c:829-861 | the exact negative |
| `Ed25519FieldOps.FeMulTo` | ed25519/src/fe.c:539-748 | the product also when the result overwrites an operand |
| `Ed25519FieldOps.FeSqTo` | ed25519/src/fe.c:965-1110 | the square also when the result overwrites the operand |
| `Ed25519Invert.FeInvert` | ed25519/src/fe.c:364-448 | the chain of squarings and products computes the power p - 2 |
| `Ed25519Invert.FePow22523` | ed25519/src/fe.c:864-947 | the chain computes the power (p - 5) / 8 |
| `Ed25519Curve.AdditionLaw` | ed25519/src/ge.c:9-22 | the quotients of the extended coordinates are the sum of two points, over non-zero denominators |
| `Ed25519Curve.DoublingLaw` | ed25519/src/ge.c:259-271 | the quotients of the doubling formula are the sum of a point with itself |
| `Ed25519Points.GeAdd` | ed25519/src/ge.c:9-22 | represents the sum; all operands of the products stay within their bounds |
| `Ed25519Points.GeSub` | ed25519/src/ge.c:441-455 | represents the difference, likewise |
| `Ed25519Points.GeMadd` | ed25519/src/ge.c:188-200 | represents the sum with a precomputed point, likewise |
| `Ed25519Points.GeMsub` | ed25519/src/ge.c:207-220 | represents the difference, likewise |
| `Ed25519Points.GeP2Dbl` | ed25519/src/ge.c:259-271 | represents the double, likewise |
| `Ed25519Points.GeP3Dbl` | ed25519/src/ge.c:286-290 | represents the double |
| `Ed25519Points.GeToP3` | ed25519/src/ge.c:239-244 | represents the same point |
| `Ed25519Points.GeToP2` | ed25519/src/ge.c:227-231 | represents the same point |
| `Ed25519Codec.CurveConstants` | ed25519/src/ge.c:133-135 | the limbs of d are the curve's constant -121665/121666 modulo p, and d2 is twice that |
| `Ed25519Codec.RootOfMinusOne` | ed25519/src/ge.c:137-139 | the limbs of sqrtm1 square to -1 |
| `Ed25519Codec.GeToCached` | ed25519/src/ge.c:302-307 | represents the same point |
| `Ed25519Codec.GeP2Zero` | ed25519/src/ge.c:247-251 | represents the neutral point |
| `Ed25519Codec.GeP3Zero` | ed25519/src/ge.c:274-279 | represents the neutral point |
| `Ed25519Codec.GeToBytes` | ed25519/src/ge.c:458-467 | writes y below p in 255 bits and the parity of x on top, for the affine point, whatever the denominator |
| `Ed25519Sqrt.BetaWorks` | ed25519/src/ge.c:150-160 | if u/v is a square, the candidate root squares to u/v or to -u/v |
| `Ed25519Sqrt.TwoRoots` | ed25519/src/ge.c:161-177 | two roots are equal or opposite |
| `Ed25519Decode.Root` | ed25519/src/ge.c:150-172 | returns a root whenever the candidate or its multiple by sqrtm1 is one, and nothing else |
| `Ed25519Decode.GeFromBytesNegate` | ed25519/src/ge.c:141-181 | succeeds exactly on the 32-byte strings whose low 255 bits are the y of a point of the curve; what is decoded lies on the curve, has that y and the opposite sign; every encoded point is decoded to its negative |
| `Ed25519Decode.DecodeThenEncode` | ed25519/src/ge.c:141-181 | coordinates decoded from canonical bytes, with x negated, encode to those bytes |
| `Ed25519Group.Add` | ed25519/src/ge.c:9-22 | on representations, the group's addition |
| `Ed25519Group.Subtract` | ed25519/src/ge.c:441-455 | on representations, the addition of the negative |
| `Ed25519Group.Double` | ed25519/src/ge.c:259-271 | on representations, the group's doubling |
| `Ed25519Slide.Ripple` | ed25519/src/ge.c:44-51 | adding a carry to binary digits changes their sum by its weight, less 2^256 if all above are ones |
| `Ed25519Slide.Window` | ed25519/src/ge.c:34-57 | one window keeps the sum and leaves an odd digit followed by three zeros |
| `Ed25519Slide.Slide` | ed25519/src/ge.c:25-58 | all digits are zero or odd in [-15, 15]; their sum is the scalar if it is below 2^255, and in any case the scalar or the scalar less 2^256 |
| `Ed25519ScalarMult.OddMultiples` | ed25519/src/ge.c:77-100 | the table holds the first eight odd multiples |
| `Ed25519ScalarMult.Step` | ed25519/src/ge.c:103-129 | one turn doubles and adds both digits |
| `Ed25519ScalarMult.GeDoubleScalarMult` | ed25519/src/ge.c:67-130 | represents aA + bB for scalars below 2^255, and says which multiples it represents for all others |
| `Ed25519ScalarMult.DoubleAndAdd` | ed25519/src/ge.c:103-129 | in any abelian group the loop over digits evaluates to the combination of their sums |
| `Ed25519Radix16.Recode` | ed25519/src/ge.c:394-411 | for a scalar with top byte at most 127 the digits lie in [-8, 8] and sum to the scalar |
| `Ed25519Radix16.TwoHalves` | ed25519/src/ge.c:414-433 | sixteen times the odd digits and the even digits make up the number |
| `Ed25519Radix16.TwoPasses` | ed25519/src/ge.c:414-433 | in any abelian group the two passes evaluate to the multiple |
| `Ed25519Base.EqualIs` | ed25519/src/ge.c:333-341 | the branch-free comparison is equality |
| `Ed25519Base.NegativeIs` | ed25519/src/ge.c:343-347 | the extended top bit is the sign |
| `Ed25519Base.MatchesIs` | ed25519/src/ge.c:358-370 | comparing the branch-free absolute value with an index decides whether the digit has that size |
| `Ed25519Base.FeCmov` | ed25519/src/fe.c:134-188 | the masked exclusive or moves all ten limbs or none |
| `Ed25519Base.MoveIs` | ed25519/src/fe.c:134-188 | the masked move selects one of two words |
| `Ed25519Base.Select` | ed25519/src/ge.c:356-375 | the branch-free selection returns the table's multiple for every digit in [-8, 8] |
| `Ed25519Base.Pass` | ed25519/src/ge.c:414-433 | one pass adds the multiples of the odd or the even digits |
| `Ed25519Base.GeScalarMultBase` | ed25519/src/ge.c:386-434 | represents aB |
| `Groups.Cancellation` | ed25519/src/verify.c:68-70 | S = (ka + r) mod L gives k(-A) + SB = rB in any abelian group |
| `Ed25519Sign.CreateKeypair` | ed25519/src/keypair.c:6-16 | the private key is the hash of the seed with bytes 0 and 31 clamped, and the public key encodes its multiple of the base point |
| `Ed25519Sign.Sign` | ed25519/src/sign.c:7-31 | the signature encodes rB and then (ka + r) mod L, where r hashes the second half of the private key and the message, and k hashes the encoding, the public key and the message, both mod L |
| `Ed25519Sign.ConstTimeEqual` | ed25519/src/verify.c:6-45 | true exactly on equal bytes |
| `Ed25519Sign.Verify` | ed25519/src/verify.c:47-77 | accepts exactly if S is below 2^253, the key has a point and R encodes SB + kn, where k hashes R, the key and the message, and n is the negative of that point: a canonical key encodes -n, and a key that encodes a point A has n = -A |
| `Ed25519Sign.EncodesNegative` | ed25519/src/ge.c:141-181 | a canonical string encodes the negative of the point decoded from it |
| `Ed25519Sign.SignedIsAccepted` | ed25519/src/verify.c:47-77 | the two halves that signing writes meet the condition of verification, for every key, nonce and challenge |
| `Ed25519Sign.SignThenVerify` | ed25519/src/sign.c:7-31 | a signature made with a generated key pair is accepted |
| `Blake2s.CounterStep` | blake2/ref/blake2s-ref.c:61-65 | the two counter words count modulo 2^64 |
| `Blake2s.State.IncrementCounter` | blake2/ref/blake2s-ref.c:61-65 | likewise, on the state |
| `Blake2s.State.CompressBlocks` | blake2/ref/blake2s-ref.c:228-233 | compresses all but the last one to 64 bytes, in order, with the right counters |
| `Blake2s.State.Update` | blake2/ref/blake2s-ref.c:214-239 | the state is that of the concatenated input; the last block is held back |
| `Blake2s.State.Final` | blake2/ref/blake2s-ref.c:241-263 | returns the digest of all input; refuses a short buffer and a second call |
| `Blake2sp.FullAt` | blake2/ref/blake2sp-ref.c:155-171 | leaf i receives byte r of stripe 8q + i at place 64q + r |
| `Blake2sp.FullAppend` | blake2/ref/blake2sp-ref.c:133-181 | cutting a message leaves the stripes of each leaf unchanged |
| `Blake2spLeaves.FeedLeaf` | blake2/ref/blake2sp-ref.c:161-170 | a leaf absorbs its stripes of the whole blocks |
| `Blake2spLeaves.FinishAll` | blake2/ref/blake2sp-ref.c:193-205 | each leaf ends with its part of the rest |
| `Blake2spHash.NewLeaves` | blake2/ref/blake2sp-ref.c:78-130 | eight leaves, each with its number in its parameters, the padded key as first block and the last-node mark on the last |
| `Blake2spHash.NewRoot` | blake2/ref/blake2sp-ref.c:60-76 | the root has node depth 1 and the last-node mark |
| `Blake2spHash.NodesDiffer` | blake2/ref/blake2sp-ref.c:42-76 | no two nodes of a tree have the same parameter block, nor do trees for other lengths |
| `Blake2spHash.Combine` | blake2/ref/blake2sp-ref.c:207-210 | the root over the eight leaf digests is the tree digest |
| `Blake2spHash.Hash` | blake2/ref/blake2sp-ref.c:214-289 | the one-shot function returns the tree digest, and refuses bad lengths |
| `Blake2spHash.Stream.Update` | blake2/ref/blake2sp-ref.c:133-181 | the state is that of the concatenated input |
| `Blake2spHash.Stream.Final` | blake2/ref/blake2sp-ref.c:184-211 | returns the tree digest of all input |
| `Blake2spHash.Start` | blake2/ref/blake2sp-ref.c:78-130 | the empty stream, or failure on bad lengths |
| `Blake2spHash.StreamingIsOneShot` | blake2/ref/blake2sp-ref.c:133-289 | for every cut of the message streaming and one-shot hashing agree |
| `Blake2Collisions.DigestTells` | blake2/ref/blake2s-ref.c:214-263 | if no two calls of the compression function in two hashes clash, equal digests come from equal initial values, flags and messages |
| `Blake2Collisions.StripesTell` | blake2/ref/blake2sp-ref.c:155-205 | what the leaves receive determines the message |
| `Blake2Collisions.TreeTells` | blake2/ref/blake2sp-ref.c:214-289 | if nothing clashes in two tree hashes, equal digests come from equal output lengths, keys and messages |
| `Blake2Collisions.HashTwice` | blake2/ref/blake2sp-ref.c:214-289 | then two calls give the same full-length output if and only if key and message are the same |
| `IntegralCodec.CodeDecodes` | csdb/src/integral_encdec.cpp:23-89 | a value written in a length that fits it reads back, whatever follows |
| `IntegralCodec.Encode` | csdb/src/integral_encdec.cpp:23-50 | writes one to nine bytes that fit the value, no shorter length fitting a value other than 0 and -1 |
| `IntegralCodec.Decode` | csdb/src/integral_encdec.cpp:63-89 | reads exactly the reference meaning of the bytes, failures included |
| `IntegralCodec.RoundTrip` | csdb/src/integral_encdec.cpp:23-89 | every 64-bit value reads back from as many bytes as were written |
| `IntegralCodec.PrefixRejected` | csdb/src/integral_encdec.cpp:63-89 | every proper prefix of a code is rejected |
| `IntegralCodec.PrefixFree` | csdb/src/integral_encdec.cpp:23-50 | a code that starts with another is the same code of the same value |
| `IntegralCodec.Minimal` | csdb/src/integral_encdec.cpp:23-50 | no shorter byte string reads as the value |
| `ChainSegments.Determined` | csdb/src/storage.cpp:39-90 | the set of blocks determines the index |
| `ChainSegments.Segment` | csdb/src/storage.cpp:39-46 | length and missing predecessor of a segment are those of the chain of distinct blocks below its head |
| `ChainSegments.Inserted` | csdb/src/storage.cpp:48-90 | after one more block the index describes the maximal segments, with length and missing predecessor |
| `ChainSegments.SegmentIndex.Insert` | csdb/src/storage.cpp:48-90 | the four cases of the update keep the index right |
| `ChainSegments.InsertAll` | csdb/src/storage.cpp:48-90 | likewise for any acyclic, fork-free sequence of blocks |
| `ChainSegments.OrderIndependent` | csdb/src/storage.cpp:48-90 | two orders of the same blocks give the same index |
| `ChainStorage.TablesPut` | csdb/src/database_berkeleydb.cpp:147-173 | a new pool joins those that the two tables hold |
| `ChainStorage.Storage.Put` | csdb/src/database_berkeleydb.cpp:147-173 | writes both tables under the number plus one in 32 bits, or neither if that is zero |
| `ChainStorage.Storage.Get` | csdb/src/database_berkeleydb.cpp:175-210 | finds a pool exactly if one with that hash was written, and then that one |
| `ChainStorage.Storage.Save` | csdb/src/storage.cpp:377-403 | queues a pool exactly if it is valid and its hash is not in the table, that is, if none with that hash was written |
| `ChainStorage.Storage.PutFront` | csdb/src/storage.cpp:237-238 | first half of a turn: the tables take the pool and the count grows |
| `ChainStorage.Storage.PopFront` | csdb/src/storage.cpp:239-242 | second half: the last hash moves on exactly if the pool follows it |
| `ChainStorage.Storage.WriteNext` | csdb/src/storage.cpp:226-245 | moves one pool from the queue to the tables and keeps the chain from the last hash |
| `ChainStorage.Storage.Walk` | csdb/src/storage.cpp:405-432 | following predecessors from the last hash meets written pools, each once, down to the first |
| `ChainStorage.Run` | csdb/src/storage.cpp:226-403 | in every interleaving nothing is lost or reordered: written and queued pools are those saved |
| `ChainRescan.Rescan` | csdb/src/storage.cpp:159-224 | fails exactly on a damaged record; otherwise counts the records and returns the hash of the last entry up to which each names the one before |
| `ChainRescan.TableHolds` | csdb/src/storage.cpp:207-212 | after any records in any order the vector reaches to the highest number, holds the newest record of each number and nothing where there is none |
| `ChainRescan.EndOfRun` | csdb/src/storage.cpp:215-221 | for distinct numbers that entry ends the longest run of linked blocks from number zero on |
| `ChainRescan.CursorInOrder` | csdb/src/storage.cpp:177-214 | reading the records by number returns blocks numbered in order just as they were written |
| `ChainRescan.Records` | csdb/src/storage.cpp:176-177 | the iterator returns every record once, by number |
| `ChainRescan.Reopen` | csdb/src/storage.cpp:159-224 | a store whose blocks were saved in order recovers its last hash and count, at any moment |
| `ChainRescan.ReopenAny` | csdb/src/storage.cpp:159-224 | reopening any store with distinct numbers, gaps and broken links included, counts all blocks and stops where that run ends |
| `ChainRescan.RunInOrder` | csdb/src/storage.cpp:226-403 | every interleaving of blocks saved in chain order keeps them in order, with the last hash at the last written |
| `ChainRescan.Restart` | csdb/src/storage.cpp:159-245 | after every such run, once the writer is done, the rescan finds the last block and the number of blocks saved |
| `ChainRescan.WholeChain` | csdb/src/storage.cpp:226-245 | walking back then visits every written block, newest first |
| `ChainRescan.WriteLastBlock` | csnode/src/Blockchain.cpp:18-30 | one call between turns of the writer: blocks stay in order, and each keeps a record of its own, if and only if the writer had nothing left to do |
| `ChainRescan.LostBlock` | csnode/src/Blockchain.cpp:18-30 | two blocks written at once: the first is then loaded as the second |
| `ChainRescan.Drain` | csdb/src/storage.cpp:226-245 | the writer keeps blocks in order |
| `ChainCalls.Node.BeginCall` | csnode/src/Blockchain.cpp:22 | the call reads the last hash with all earlier blocks linked exactly if the queue is empty |
| `ChainCalls.Node.Number` | csnode/src/Blockchain.cpp:23 | it reads the size with all earlier blocks counted exactly if the queue is empty or its one pool is just counted |
| `ChainCalls.Overwritten` | csnode/src/Blockchain.cpp:23 | the first call that reads too small a size takes the record of an earlier block, which is no longer found |
| `ChainCalls.Kept` | csnode/src/Blockchain.cpp:23 | if none does, every block is found by its hash |
| `ChainCalls.OrderedCalls` | csnode/src/Blockchain.cpp:22 | blocks are numbered and linked in order if and only if every call read the last hash with all earlier blocks linked |
| `ChainCalls.Node.AfterCalls` | csnode/src/Blockchain.cpp:18-30 | both conditions, on any state of a run once the writer is done |
| `ChainCalls.RunCalls` | csdb/src/storage.cpp:226-403 | every interleaving of the reads and saves of the calls with the halves of the writer's turns keeps the tables, the count and the last hash those of the pools stored, counted and linked so far |
| `ChainCalls.EveryRun` | csnode/src/Blockchain.cpp:18-30 | after every such run all blocks load if and only if every call read the size with all earlier blocks counted, and are in order if and only if every call read the last hash with the queue empty |
| `ChainBalance.ReadBlock` | csnode/src/Blockchain.cpp:84-92 | what a block says about an address |
| `ChainBalance.UnnamedIsZero` | csnode/src/Blockchain.cpp:65 | an address that no transaction names has nothing |
| `ChainBalance.NeverPays` | csnode/src/Blockchain.cpp:81-102 | an address that never pays has all it received |
| `ChainBalance.LastPayment` | csnode/src/Blockchain.cpp:81-102 | any other has what its last payment records and all it received from that block on |
| `ChainBalance.BlockChain.Append` | csnode/src/Blockchain.cpp:18-30 | cached balances stay those of earlier ends of the chain |
| `ChainBalance.BlockChain.WalkBack` | csnode/src/Blockchain.cpp:77-102 | the walk down to the remembered block gives the balance of the whole chain |
| `ChainBalance.BlockChain.GetBalance` | csnode/src/Blockchain.cpp:63-106 | whatever was asked before, the answer is that of the uncached walk; without payments it is all that was received |
| `SmartContracts.OriginsAppend` | api/src/APIHandler.cpp:643-666 | in one scan the earlier deployment counts |
| `SmartContracts.StatesAppend` | api/src/APIHandler.cpp:643-666 | the later state counts |
| `SmartContracts.DeployedAppend` | api/src/APIHandler.cpp:643-666 | newer deployments come before older ones |
| `SmartContracts.OriginsSplit` | api/src/APIHandler.cpp:650-651 | a second pass keeps the origins of one scan if and only if it deploys no known contract |
| `SmartContracts.EverySchedule` | api/src/APIHandler.cpp:634-670 | over every run of passes the origins are those of one scan if and only if no contract is deployed in two passes |
| `SmartContracts.Redeployed` | api/src/APIHandler.cpp:650-651 | a contract deployed in two passes has the wrong origin |
| `SmartContracts.OriginIs` | api/src/APIHandler.cpp:650-651 | the first transaction with code for a contract is its origin |
| `SmartContracts.OriginFrom` | api/src/APIHandler.cpp:650-651 | and every origin is such a transaction |
| `SmartContracts.StateIs` | api/src/APIHandler.cpp:661-665 | the last transaction without code for a contract is its state |
| `SmartContracts.StateFrom` | api/src/APIHandler.cpp:661-665 | and every state is such a transaction |
| `SmartContracts.DeployedIs` | api/src/APIHandler.cpp:653-659 | a creator's list has one place for each transaction with code, as far from the front as later ones are many |
| `SmartIndex.Visit` | api/src/APIHandler.cpp:644-665 | one transaction, older than those seen, extends the pass by one |
| `SmartIndex.ChainIndexed` | api/src/APIHandler.cpp:633-670 | every transaction of every block with a contract is in the tables, by whether it carries code, and origins and states come from such transactions only |
| `SmartIndex.Index.ReadNew` | api/src/APIHandler.cpp:638-668 | the walk down to the last block seen is one pass over exactly the new transactions |
| `SmartIndex.Index.Refresh` | api/src/APIHandler.cpp:633-670 | every contract transaction of the chain is indexed; states and deployment lists equal those of a scan of the whole chain; origins do if and only if they did before and no known contract is deployed again |
| `SmartSchedule.Run` | api/src/APIHandler.cpp:633-670 | over every run of new blocks and refreshes, states and lists equal those of one scan of all that was seen, and origins do if and only if no contract is deployed in two passes |

## Left out

- SnappyDecompress.Source.Peek: a source other than a flat array that exposes 2^32 bytes or more at once is not modelled, because the program has none.
- Blake2s.State.Final: output lengths above 32 bytes are not modelled, because no caller passes them.
- ChainStorage.Run: pools saved in a run have distinct hashes and record numbers; `ChainCalls.Overwritten` shows what equal numbers do.
- ChainCalls.RunCalls: the blocks of a run have distinct hashes, as those of composed blocks are, and are fewer than 2^32 - 1, where record numbers run out.
- The sink over a byte array hands out its own memory; here the buffer is separate and is appended.
- `UncompressAsMuchAsPossible` is not modelled: it is the block branch of `Uncompress` without its result.
- ChainSegments.InsertAll: sets of blocks with forks or cycles are not modelled, because the index has no entry for them.
- ChainBalance.BlockChain.GetBalance: amounts are unbounded integers in the smallest unit; the overflow of the 32-bit integral part is not modelled.
- The compression function and parameter layout of BLAKE2s are arbitrary functions, and SHA-512 is an arbitrary function.
- The group law of the curve, the primality of its constants and the contents of the precomputed tables are hypotheses.
- Bit scans are the portable versions; those by compiler intrinsics are not modelled, and neither is a scan of zero, which the callers exclude.
- Aliasing of point structs passed by pointer is not modelled; field elements are modelled as arrays where an operand is overwritten.
- Threads are modelled by their steps in any order, more orders than the writer's lock allows; wake-up and shutdown of the writer are not modelled.
- Serialization of pools, transactions and contracts is not modelled: a pool or block carries the fields that matter, and a flag for data that does not parse.
- The progress callback of the rescan and its cancellation are not modelled.
- Not modelled: BLAKE2b, BLAKE2bp and the SSE variants of BLAKE2, key exchange, scalar addition to keys and seed creation of Ed25519, the consensus code, the network layer, and the API server apart from the smart-contract index.
