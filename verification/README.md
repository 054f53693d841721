# A verified model of the key-value store, its channel and its ML-KEM

Three pieces of the repository are modelled here and proved correct with Dafny.

**The log-structured store.** `Crc32` (with its values in `CrcValues`), `RecordFormat`,
`Hints` and `Directory` say what bytes on disk mean: which records a reader accepts, what a directory of segments, hint
files and leftovers of interrupted compactions stands for, and which single disk steps
leave that unchanged. `SegmentedEngine` is the engine itself, a class with the source's
fields; its `trail` lists every disk state at which the process may die, and its
invariant (`Trails`) says that no state is missing: each follows from the one before by
one system call, where a write moves a single byte. `EngineRuns.Drive` puts operations, clean
restarts, deaths inside operations and deaths inside any number of later startups into
one run and explains it by the same run on a plain map, which says for every refused
operation what excuses the refusal. `LruCache` is the cache in front; `SingleFile`,
`SingleFileEngine` and `SingleFileRuns` are the one-file engine, whose runs give exactly
the answers of a plain map that counts bytes.

**ML-KEM.** The specification works on integers modulo q = 3329: `Ring` (products in
Z[X]/(X^n - c)), `NttSpec` (the transform as a tree of remainders), `KpkeSpec` and
`KpkeCorrect` (K-PKE and the exact noise condition of decryption), with `ZetaPowers`,
`NttRemainders` and `KpkeFields` stating roots, transform and byte layouts without the
table. The code side uses 16- and 32-bit types, so that every range is checked, and in-place arrays: `Montgomery`,
`PolyNtt`, `PolyVec`, `PolyCompress`, `PolyVecOps`, `Kpke`, `Verify`, `Kem`, `Sponge`,
`Sampling`, `Cbd`. `NttLayers` connects the passes of the code with the tree, `Zetas`
holds the table of twiddle factors and the facts about it, `Packing` the bit packing.

**The secure channel.** `SecureChannel` is one endpoint over an arbitrary byte stream
with an ideal AEAD, `ChannelRuns` two endpoints and an adversarial network.

`dafny verify dfyconfig.toml` checks the whole project.

What comes from outside is a parameter: the clock, failing file operations of
compaction and hint writing (oracles), the order in which a hash map is walked, the
Keccak permutation (any function on 200-byte states), the hashes G, H and J, the
ciphertexts AES-GCM produces, the bytes the network presents and how recv and send cut
them. For K-PKE and the KEM the matrix entries and the noise are given by functions
that return canonical entries and noise within eta; `Sampling` and `Cbd` prove what the
code that computes them returns, `MlKem` that the functions built from it qualify, and
`Noise` that the sampling calls of key generation and encryption fill their vectors with
exactly what those functions say.
Rejection sampling runs until enough candidates are accepted, so its members take as
hypothesis that some number of blocks is enough; `Sampling.SampleUnique` shows that the
result does not depend on which.

Where the code and its comments disagree the model follows the code: the comment above
`compact()` (segmented_engine.hpp:153-155) says that a failure before the swap changes
nothing on disk, but when the rename itself fails the hint of the newest sealed segment
is already gone (segmented_engine.hpp:576-583). `EngineRuns.HintedStore` builds a store
and `EngineRuns.HintLost` shows that it happens there. `SegmentedEngine.Engine.Compact` states exactly when it does: a failed
compaction leaves the disk as it was if and only if the operation that failed was not the
rename or that segment had no hint, and in the other case nothing but the hint is gone.
Contents are unaffected; the next startup scans the segment.

## Model

| member | source | states |
|---|---|---|
| `Crc32.PolyValue` | crc32.hpp:19 | the register used as divisor is the number 0xEDB88320 |
| `Crc32.EntryLoop` | crc32.hpp:17-20 | the inner loop of the table builder computes eight division steps of one byte |
| `Crc32.BuildTable` | crc32.hpp:13-25 | every one of the 256 entries is the register that byte leaves after eight division steps |
| `Crc32.UpdateLoop` | crc32.hpp:31-36 | the table loop leaves, for every start register and every data, exactly the register that dividing the message bit by bit leaves |
| `Crc32.TableIsDivision` | crc32.hpp:31-36 | the table form equals bit-serial division by the polynomial, for data of any length |
| `Crc32.Chunks` | crc32.hpp:29-36 | feeding two chunks one after the other equals feeding their concatenation |
| `Crc32.BurstDetected` | crc32.hpp:38-40 | for data of any length, every change confined to four consecutive bytes changes the checksum |
| `CrcValues.EmptyCrc` | crc32.hpp:38-40 | the checksum of the empty message is 0 |
| `CrcValues.Residue` | crc32.hpp:38-40 | for data of any length, the data followed by its own checksum has the checksum 0x2144DF1C |
| `CrcValues.CheckValue` | crc32.hpp:38-40 | the checksum of the digits 1 to 9 is 0xCBF43926 |
| `RecordFormat.ParseEncode` | record_format.hpp:71-93 | a written record is accepted and read back, whatever bytes follow it |
| `RecordFormat.RecordLayout` | record_format.hpp:48-93 | where each field of a record stands: checksum of the rest, timestamp, lengths, key, value, with the reserved lengths of deletes and markers |
| `RecordFormat.ParseSound` | record_format.hpp:47-59 | whatever is accepted is, byte for byte, what the writer produces for that record |
| `RecordFormat.ParseTorn` | record_format.hpp:71-93 | a strict prefix of a record is never accepted, with no assumption about its checksum |
| `RecordFormat.ScanSound` | segmented_engine.hpp:312-360 | on arbitrary bytes the scan stops at an offset inside the file; the accepted records are exactly the bytes before it and nothing is accepted at it |
| `RecordFormat.ScanEncode` | segmented_engine.hpp:312-360 | whole records followed by bytes no reader accepts: exactly those records come back |
| `RecordFormat.ScanTornTail` | segmented_engine.hpp:312-360 | whole records followed by any strict prefix of one more: exactly the whole records come back |
| `RecordFormat.ScanTruncated` | segmented_engine.hpp:312-360 | rescanning the file truncated at the stopping point finds the same records and stops at the same place |
| `RecordFormat.ScanAppend` | segmented_engine.hpp:97-113 | appending one whole record to a clean log appends it to the scan and leaves the log clean |
| `RecordFormat.DamageDetected` | record_format.hpp:71-93 | damage of at most four consecutive bytes is always rejected, and the scan keeps exactly the records before it, when it lies in the checksum or else beyond it and outside the length fields; a window over the end of the checksum and the start of the timestamp is excluded |
| `Hints.ParseEncodeHints` | segmented_engine.hpp:245-258 | an encoded hint list whose entries lie in the segment parses back to itself |
| `Hints.HintLayout` | segmented_engine.hpp:245-258 | where each field of a hint stands |
| `Hints.HintsIndex` | segmented_engine.hpp:312-360 | replaying the hints of a segment builds the index that its records build |
| `Hints.HintSound` | segmented_engine.hpp:367-423 | a hint that describes some first records of its segment is trusted only if it leaves none out, and then stands for the same index as the full scan |
| `Hints.CompleteHintTrusted` | segmented_engine.hpp:413-416 | the complete hint of a sealed segment is always trusted |
| `Hints.SuffixTrusted` | segmented_engine.hpp:413-416 | limit of the end-of-segment check: of a segment ending in a key record, every nonempty tail of the hint list passes it, however many records are left out at the front; so the rule rests on the hint list being rebuilt at restart |
| `Hints.SuffixLosesKey` | segmented_engine.hpp:413-416 | such a tail can build a different index: two keys, the first one lost |
| `Directory.HoldsUnique` | segmented_engine.hpp:454-506 | a directory stands for at most one mapping |
| `Directory.DropHint` | segmented_engine.hpp:576-581 | deleting a hint file never changes what the directory stands for |
| `Directory.DropStale` | segmented_engine.hpp:476-479 | deleting a segment below the newest base marker never changes what the directory stands for |
| `Directory.AppendTorn` | segmented_engine.hpp:97-113 | a record cut short in the newest segment does not change what the directory stands for |
| `Directory.AppendWhole` | segmented_engine.hpp:97-113 | a whole record appended to the newest segment changes the mapping by exactly that record |
| `Directory.TruncateNewest` | segmented_engine.hpp:498-500 | trimming the torn tail changes nothing |
| `Directory.NewSegment` | segmented_engine.hpp:298-309 | creating the next, empty segment changes nothing |
| `Directory.WriteHint` | segmented_engine.hpp:262-281 | publishing the complete hint of a clean sealed segment changes nothing |
| `Directory.Commit` | segmented_engine.hpp:583-585 | renaming a merged segment with a base marker over the newest sealed one keeps the mapping, with all superseded segments still in place |
| `Directory.StepKeepsHints` | segmented_engine.hpp:508-515 | a system call on the newest or the newest but one segment, or a deletion, keeps every hint a description of first records of its own segment, also for superseded segments |
| `EngineRuns.SoundEverywhere` | segmented_engine.hpp:262-296 | an engine that found only sound hints at startup has no other hint on disk in any state of its trail |
| `Trails.RecordStep` | test_crash_syscalls.cpp:3-9 | a trail of disk states stays gapless: every state follows from the one before by a single system call |
| `Merge.DirPoints` | segmented_engine.hpp:454-506 | the index of a directory names exactly the keys of its mapping, and every entry leads to an intact record of that key and value |
| `Merge.MergeKeepsMap` | segmented_engine.hpp:516-611 | marker and live sealed records, replayed before the active segment, give the same mapping as all the old segments |
| `Merge.MergeKeepsIndex` | segmented_engine.hpp:587-596 | relocating the merged keys in the old index gives the index a scan of the new directory builds |
| `Merge.LogOrderUnique` | segmented_engine.hpp:525-532 | sorting by segment and position has only one result |
| `Merge.CompactAgain` | segmented_engine.hpp:516-611 | a second compaction of an unchanged store selects the same keys in the same order and writes the same records after its marker |
| `Recovery.FullScan` | segmented_engine.hpp:312-360 | on arbitrary bytes: the index, the complete hint list and the stopping offset of the accepted records |
| `Recovery.ReadHint` | segmented_engine.hpp:386-423 | accepts exactly the trustworthy hint files and then builds their index; a rejected hint changes nothing |
| `Recovery.SortIds` | segmented_engine.hpp:462 | the segment identifiers in increasing order, each once |
| `Recovery.SortItems` | segmented_engine.hpp:525-532 | the keys outside the active segment, each once, in log order |
| `SegmentedEngine.Engine.constructor` | segmented_engine.hpp:76-90 | startup on every undamaged directory rebuilds exactly the mapping it stands for, and every disk state on the way still stands for it; the disk, the active segment and the offset it ends with are exactly those of the source: leftovers gone, torn tail cut, a full segment sealed and the next one opened, otherwise nothing else touched |
| `SegmentedEngine.Engine.Open` | segmented_engine.hpp:454-506 | temporary files removed, then the first segment created or everything recovered |
| `SegmentedEngine.Engine.CopyOne` | segmented_engine.hpp:544-571 | one live record verified and copied, or nothing changed |
| `SegmentedEngine.Engine.Step` | segmented_engine.hpp:508-515 | one system call, recorded as a state a death can leave behind |
| `SegmentedEngine.Engine.RemoveTempFiles` | segmented_engine.hpp:448-452 | removes every temporary file; every intermediate state keeps the mapping |
| `SegmentedEngine.Engine.FirstLive` | segmented_engine.hpp:469-475 | finds the newest sealed segment that begins with a base marker |
| `SegmentedEngine.Engine.LiveSegments` | segmented_engine.hpp:454-480 | after an interrupted compaction is finished, exactly the live segments are left, oldest first; every intermediate state keeps the mapping |
| `SegmentedEngine.Engine.FinishCompaction` | segmented_engine.hpp:476-480 | deletes everything a finished compaction superseded; every intermediate state keeps the mapping |
| `SegmentedEngine.Engine.IndexSegment` | segmented_engine.hpp:487 | from its hint or by scanning it, a sealed segment adds the same entries to the index |
| `SegmentedEngine.Engine.RecoverSealed` | segmented_engine.hpp:482-488 | by hint or by scan, the index of all live sealed segments |
| `SegmentedEngine.Engine.Recover` | segmented_engine.hpp:454-506 | the same exact final state on a disk without temporary files |
| `SegmentedEngine.Engine.RecoverActive` | segmented_engine.hpp:490-505 | truncates the torn tail and rebuilds index and hint list of the newest segment; below the threshold it stays active at the end of its last record and nothing else changes, otherwise it is sealed with its complete hint and the next one opened |
| `SegmentedEngine.Engine.WriteHintFile` | segmented_engine.hpp:262-281 | written, not opened or not completed: in each case, and in every intermediate state, the directory keeps its mapping and holds only sound hints |
| `SegmentedEngine.Engine.Seal` | segmented_engine.hpp:286-296 | publishes the hints of the active segment and always forgets them |
| `SegmentedEngine.Engine.MaybeRoll` | segmented_engine.hpp:238-243 | rolls exactly at the threshold, to the next identifier and with the full segment's hint list published if it can be, without changing the contents; below the threshold nothing changes |
| `SegmentedEngine.Engine.RollAndAppend` | segmented_engine.hpp:97-113 | the record goes to the active segment or, if that is full, to the next one; refused exactly when the file would grow too long |
| `SegmentedEngine.Engine.Append` | segmented_engine.hpp:97-113 | the record is whole on disk or, at a death, a strict prefix; every state in between stands for the old mapping or the new one |
| `SegmentedEngine.Engine.Put` | segmented_engine.hpp:97-113 | the bytes of exactly this record with this timestamp are added to the active segment or begin the next one; accepted exactly within the length limits; contents gain exactly this key and value or, refused, nothing; cache and index keep agreeing; every death keeps the old or the new mapping |
| `SegmentedEngine.Engine.Get` | segmented_engine.hpp:115-133 | answers exactly what the contents hold, from the cache or from the segment the index names |
| `SegmentedEngine.Engine.ReadThrough` | segmented_engine.hpp:121-132 | a cache miss reads the bytes the index entry points at and caches them |
| `SegmentedEngine.Engine.Del` | segmented_engine.hpp:135-151 | the bytes of exactly this delete with this timestamp are added; accepted exactly when the key is there and its record fits; removes exactly this key |
| `SegmentedEngine.Engine.ReadVerified` | segmented_engine.hpp:544-566 | the record copied by compaction is intact and belongs to the key, timestamp and size of its index entry |
| `SegmentedEngine.Engine.CopyAll` | segmented_engine.hpp:544-571 | every chosen record is verified and copied, in order, up to the first operation that fails |
| `SegmentedEngine.Engine.BuildMerged` | segmented_engine.hpp:534-573 | succeeds exactly when no operation up to the fsync fails and the file does not grow too long; then the temporary file holds the marker and each live sealed key once, in log order, and otherwise the disk is as it was; every death on the way keeps the mapping |
| `SegmentedEngine.Engine.Publish` | segmented_engine.hpp:575-609 | removes the old hint, renames, switches the index, deletes the superseded segments and writes the new hint; a failing rename leaves everything but the hint of the target; every state in between keeps the mapping |
| `SegmentedEngine.Engine.CleanUp` | segmented_engine.hpp:587-609 | after the rename: index relocated, exactly the merged and the active segment left, the merged segment with its complete hint or none |
| `SegmentedEngine.Engine.Compact` | segmented_engine.hpp:516-611 | the exact condition of success, and then one sealed segment with each live sealed key once in log order after the marker; on failure the disk is unchanged if and only if the failing operation was not the rename or the target had no hint, and otherwise nothing but that hint is gone; contents and cache agreement are unchanged and every death keeps the mapping; the state with the finished merged file beside the old ones is on the trail |
| `SegmentedEngine.VerifiedMeaning` | segmented_engine.hpp:556-566 | the checks made before copying accept exactly the intact record of that key, timestamp and size |
| `SegmentedEngine.CommitHolds` | segmented_engine.hpp:508-515 | the directory right after the rename stands for the same mapping, whatever superseded segments and hints are still there |
| `SegmentedEngine.MirrorReads` | segmented_engine.hpp:115-133 | the bytes the index entry of a key points at are the value the directory holds for it |
| `SegmentedEngine.AgreesPut` | segmented_engine.hpp:111 | caching a written value keeps every cached value equal to the stored one |
| `EngineRuns.Perform` | segmented_engine.hpp:97-159 | every operation answers as a plain map does and is refused only for one of the listed reasons; every disk state inside it stands for the map before or after |
| `EngineRuns.Restart` | segmented_engine.hpp:454-506 | after any number of startups that die at any disk step, each with its own settings and hint fate, the first that completes rebuilds exactly the same mapping |
| `EngineRuns.Reopened` | segmented_engine.hpp:490-505 | closing and opening a store leaves the disk, hints and index as they were below the limit, and seals the active segment exactly when it has reached it |
| `EngineRuns.DieAndRestart` | test_crash_syscalls.cpp:3-9 | death at any disk step of any operation: what was completed is kept, the operation in flight, unless it is one that is always refused, is applied entirely or not at all |
| `EngineRuns.Drive` | segmented_engine.hpp:14-43 | every run of operations, restarts with new settings and deaths from every undamaged directory is explained by the same run on a plain map, whatever the clock, hint writes and faults do; put, del and compact are refused only for a barred argument, a file that would grow too long or a failing file operation among those a compaction of that many keys can have; hints stay sound throughout |
| `EngineRuns.EmptyDirectory` | segmented_engine.hpp:464-467 | an empty directory stands for the empty mapping |
| `EngineRuns.CompactTwice` | segmented_engine.hpp:516-611 | two compactions in a row, the first merging exactly the live sealed keys in log order, succeed exactly when the merged file fits; from the disk the first one leaves, which is on the trail, the second writes a file with the same bytes after a marker with the new timestamp and leaves it in place of the first |
| `EngineRuns.HintedStore` | segmented_engine.hpp:262-296 | a put and a del with a limit of one byte leave a sealed segment with a hint file |
| `EngineRuns.HintLost` | segmented_engine.hpp:576-583 | counterexample to segmented_engine.hpp:153-155: in every such store, a compaction of which only the rename fails, with the merged file finished, returns false with the hint deleted and nothing else changed |
| `Merge.MergedSize` | segmented_engine.hpp:534-571 | the merged segment is never longer than its marker and one record for each key of the mapping |
| `Directory.CopiesSize` | segmented_engine.hpp:544-571 | records of different keys take at most the size of the mapping, and exactly that if no key is missing |
| `LruCache.TouchBounded` | lru_cache.hpp:35-48 | touching a key in the bounded list is touching it in the unbounded history, cut to the capacity |
| `LruCache.Cache.Get` | lru_cache.hpp:28-33 | a hit returns the cached value and moves its node to the front; list and index keep naming the same keys, each once |
| `LruCache.Cache.Put` | lru_cache.hpp:35-48 | the key comes first, the others keep their order, the oldest is dropped beyond capacity; without erasures the list is the most recently touched distinct keys |
| `LruCache.Cache.Erase` | lru_cache.hpp:50-55 | removes exactly this key |
| `SingleFile.ReadersAgree` | kv_engine.hpp:201-231 | this reader differs from the segmented one only on the length field 0xFFFFFFFE, which it takes for a real length |
| `SingleFile.ScanV1Truncated` | kv_engine.hpp:185-238 | on arbitrary bytes, truncating at the stopping point and scanning again finds the same records |
| `SingleFile.ScanIntact` | kv_engine.hpp:185-238 | whole records and a torn tail: exactly the whole records come back |
| `SingleFile.DamageDetectedV1` | kv_engine.hpp:201-231 | damage of at most four consecutive bytes in a record of the engine, in the checksum or else beyond it and outside the length fields, is always rejected by this reader too, and the scan keeps exactly the records before it |
| `SingleFile.RebuildIndex` | kv_engine.hpp:185-238 | on arbitrary bytes, the index and the stopping offset of the accepted records |
| `SingleFile.IndexLeads` | kv_engine.hpp:185-238 | the index of a file of whole records names exactly the live keys, each entry leading to the bytes of its value |
| `SingleFileEngine.KvEngine.constructor` | kv_engine.hpp:55-67 | opening replays exactly the mapping the file stands for and trims a torn tail; every state on the way stands for it |
| `SingleFileEngine.KvEngine.Append` | kv_engine.hpp:77-88 | the record is whole on disk or, at a death, a strict prefix of it |
| `SingleFileEngine.KvEngine.Put` | kv_engine.hpp:77-88 | the exact condition of acceptance and the exact bytes added to the file; contents and write offset gain exactly this record or, refused, nothing |
| `SingleFileEngine.KvEngine.Get` | kv_engine.hpp:90-100 | answers exactly what the contents hold |
| `SingleFileEngine.KvEngine.Delete` | kv_engine.hpp:102-112 | the exact bytes added to the file; accepted exactly when the key is there and the record fits; removes exactly this key |
| `SingleFileEngine.KvEngine.Copy` | kv_engine.hpp:128-145 | for every walk order of the hash map, the temporary file holds one record per live key |
| `SingleFileEngine.KvEngine.Compact` | kv_engine.hpp:117-162 | keeps the contents for every walk order and succeeds exactly when both file operations do and the mapping fits; success publishes exactly the rewritten records by one rename, any failure leaves the file alone, every death keeps the mapping |
| `SingleFileEngine.RewrittenKeepsMap` | kv_engine.hpp:128-145 | one record per live key, in any order, replays to the same mapping |
| `SingleFileEngine.RewrittenSize` | kv_engine.hpp:128-145 | the rewritten file takes exactly the size of the mapping, whatever the order |
| `SingleFileEngine.OffsetIsEnd` | kv_engine.hpp:233-237 | write_offset_ is always the end of the last valid record of the file |
| `SingleFileRuns.EmptyFile` | kv_engine.hpp:57-65 | an empty or missing file stands for the empty mapping |
| `SingleFileRuns.Drive` | kv_engine.hpp:77-163 | every run of put, del, get, compact, reopening and death at any disk step gives exactly the answers of a plain map that counts the bytes it was given, for every hash-map order; a death keeps the state before or after the operation in flight; write_offset_ ends at that count, the end of the last valid record |
| `Montgomery.QuotientFactorExact` | mlkem_native/src/poly.h:70-85 | 62209 inverts q modulo 2^16: the value shifted right is a multiple of 2^16 |
| `Montgomery.MontgomeryReduce` | mlkem_native/src/poly.h:58-100 | 2^16 times the result is congruent to the input, with the stated bound; no 16- or 32-bit step leaves its range |
| `Montgomery.FqMul` | mlkem_native/src/poly.c:43-62 | 2^16 times the result is congruent to the product, and the result is below q in absolute value |
| `Montgomery.BarrettReduce` | mlkem_native/src/poly.c:75-106 | the centred representative of every 16-bit input |
| `Montgomery.SignedToUnsigned` | mlkem_native/src/poly.c:162-178 | the canonical representative of a signed one |
| `Montgomery.CanonicalReduce` | mlkem_native/src/poly.c:198-204 | Barrett reduction and conditional addition together compute the remainder modulo q |
| `Zetas.RootSquares` | mlkem_native/src/zetas.inc:17-30 | the entries at 2k and 2k + 1 are square roots of plus and minus the root at k |
| `Zetas.RootMirror` | mlkem_native/src/zetas.inc:17-30 | mirror images within one layer multiply to -1 |
| `Zetas.RootOfMinusOne` | mlkem_native/src/zetas.inc:17-30 | the first entry is a square root of -1 |
| `ZetaPowers.RootPower` | mlkem_native/src/zetas.inc:17-30 | every entry is, in Montgomery form, 17 to the power of its bit-reversed index |
| `NttRemainders.Division` | mlkem_native/src/poly.c:394-457 | Rem and Quot are remainder and quotient of the division by X^2 - z, coefficient by coefficient |
| `NttRemainders.PairPower` | mlkem_native/src/poly.c:273-302 | the root of pair i, with its sign, is 17^(2 BitRev(i) + 1) |
| `NttRemainders.HatRemainders` | mlkem_native/src/poly.c:394-457 | whatever is congruent to the transform of p holds in each pair the remainder of p modulo X^2 - 17^(2 BitRev(i) + 1) (section 4.3 of FIPS 203) |
| `Ring.FoldProduct` | mlkem_native/src/poly.c:347-384 | reducing modulo X^n - z commutes with the product modulo X^2n - z^2, over the integers |
| `NttSpec.NttProduct` | mlkem_native/src/poly.c:394-457 | every node of the transform takes products modulo X^2n - z^2 to the two products modulo X^n - z and X^n + z |
| `NttSpec.HatProduct` | mlkem_native/src/poly.c:431-457 | the transform takes the product of Z_q[X]/(X^256 + 1) to products of blocks of two |
| `NttSpec.UnhatHat` | mlkem_native/src/poly.c:523-559 | inverse layers after forward layers multiply by 128 |
| `NttSpec.HatUnhat` | mlkem_native/src/poly.c:523-559 | forward layers after inverse layers multiply by 128 |
| `NttSpec.UnhatProduct` | mlkem_native/src/poly_k.c:160-199 | multiplying transforms and coming back is 128 times the product of the ring |
| `NttSpec.MulCommutes` | mlkem_native/src/poly_k.c:160-199 | products of transforms commute |
| `NttSpec.MulAssociates` | mlkem_native/src/poly_k.c:160-199 | products of transforms associate |
| `NttSpec.MulDistributes` | mlkem_native/src/poly_k.c:160-199 | products of transforms distribute over sums |
| `NttLayers.BlocksOfLayer` | mlkem_native/src/poly.c:394-417 | one pass over all blocks leaves the transform of the remaining layers unchanged |
| `NttLayers.InvLayerOfBlocks` | mlkem_native/src/poly.c:481-516 | one inverse pass joins the inverses of both halves of every block |
| `PolyNtt.ButterflyBlock` | mlkem_native/src/poly.c:347-384 | one block becomes, modulo q, its two remainders; everything else is untouched; the bound grows by q |
| `PolyNtt.NttLayer` | mlkem_native/src/poly.c:394-417 | layer l computes its pass modulo q and takes the bound from l q to (l + 1) q |
| `PolyNtt.PolyNtt` | mlkem_native/src/poly.c:431-457 | in place, the transform modulo q, below 8 q: coefficients 2i and 2i + 1 are the remainder of the polynomial modulo X^2 - 17^(2 BitRev(i) + 1) |
| `PolyNtt.InvNttLayer` | mlkem_native/src/poly.c:481-516 | one inverse pass modulo q, staying below q |
| `PolyNtt.PolyInvNttToMont` | mlkem_native/src/poly.c:523-559 | for every input, 512 times the inverse layers modulo q, below q |
| `PolyNtt.ThereAndBack` | mlkem_native/src/poly.c:519-559 | invntt_tomont of ntt is 2^16 times the polynomial |
| `PolyVec.HatMulPair` | mlkem_native/src/poly_k.c:176-198 | coefficients 2i and 2i + 1 of a transformed product, with the root of their pair |
| `PolyVec.ProductTheorem` | mlkem_native/src/poly_k.c:160-199 | transform, cached multiply-accumulate and inverse transform give the sum of the ring products a_k b_k, all Montgomery factors cancelling |
| `PolyVec.PolyReduce` | mlkem_native/src/poly.c:187-209 | every coefficient becomes its remainder modulo q |
| `PolyVec.PolyToMont` | mlkem_native/src/poly.c:110-129 | every coefficient is multiplied by 2^16 modulo q |
| `PolyVec.PolyAdd` | mlkem_native/src/poly.c:231-244 | coefficientwise sum, within 16 bits |
| `PolyVec.PolySub` | mlkem_native/src/poly.c:251-264 | coefficientwise difference, within 16 bits |
| `PolyVec.MulCacheCompute` | mlkem_native/src/poly.c:273-302 | the cache holds the odd coefficients times the root of their pair |
| `PolyVec.BaseMulAcc` | mlkem_native/src/poly_k.c:160-199 | 2^-16 times the scalar product of the transforms, with accumulators of at most 2^30 in absolute value |
| `Compress.ScalarCompressExact` | mlkem_native/src/compress.h:50-308 | for every canonical coefficient and d = 1, 4, 5, 10, 11 the wrapping magic multiplication equals exact rounding modulo 2^d (equation 4.7 of FIPS 203) |
| `Compress.DecompressCompress` | mlkem_native/src/compress.h:50-334 | decompress after compress moves a coefficient by at most round(q / 2^(d+1)) modulo q |
| `Compress.CompressDecompress` | mlkem_native/src/compress.h:50-334 | compress after decompress is the identity |
| `Compress.NearestCompressed` | mlkem_native/src/compress.h:50-334 | the compressed value is, modulo 2^d, the factor of the multiple of q nearest to u 2^d |
| `Compress.NearestDecompressed` | mlkem_native/src/compress.h:50-334 | the decompressed value times 2^d is nearest to y q, the larger one at a tie |
| `Compress.MaxErrorValues` | mlkem_native/src/compress.h:50-334 | that bound is 104, 52, 2 and 1 for d = 4, 5, 10 and 11 |
| `Packing.OrDisjoint` | mlkem_native/src/compress.c:57-70 | bitwise or of values without a common bit is their sum |
| `Packing.EncodeKeeps` | mlkem_native/src/compress.c:39-72 | packed bytes are the base-256 digits of the number whose base-2^d digits are the values (Algorithm 5 of FIPS 203) |
| `Packing.DecodeKeeps` | mlkem_native/src/compress.c:167-251 | unpacked values are the base-2^d digits of the number whose base-256 digits are the bytes (Algorithm 6 of FIPS 203) |
| `Packing.DigitsUnique` | mlkem_native/src/compress.c:39-72 | digits are determined by their number |
| `Packing.DecodeEncode` | mlkem_native/src/compress.c:577-670 | unpacking undoes packing, for d = 1, 4, 5, 10, 11, 12 |
| `Packing.EncodeDecode` | mlkem_native/src/compress.c:577-670 | packing undoes unpacking, for every byte string |
| `PolyCompress.PolyCompress` | mlkem_native/src/compress.c:289-396 | the bytes of the exactly rounded coefficients, for widths 4, 5, 10, 11 and, for messages, 1 |
| `PolyCompress.PolyDecompress` | mlkem_native/src/compress.c:424-542 | the decompressed fields of the bytes, canonical, for widths 4, 5, 10, 11 and, for messages, 1 |
| `PolyCompress.PolyToBytes` | mlkem_native/src/compress.c:577-619 | the 12-bit encoding of the coefficients |
| `PolyCompress.PolyFromBytes` | mlkem_native/src/compress.c:640-670 | the 12-bit fields of the bytes |
| `PolyCompress.CompressionError` | mlkem_native/src/compress.c:39-251 | through bytes and back every coefficient moves by at most the maximal error modulo q |
| `PolyCompress.CompressionRoundTrip` | mlkem_native/src/compress.c:39-542 | compress after decompress returns every byte string unchanged |
| `PolyVecOps.VecNtt` | mlkem_native/src/poly_k.c:119-128 | the transform of every component, below 8 q |
| `PolyVecOps.VecInvNtt` | mlkem_native/src/poly_k.c:137-146 | the scaled inverse of every component, below q |
| `PolyVecOps.VecMulCache` | mlkem_native/src/poly_k.c:238-245 | the cache of every component |
| `PolyVecOps.VecToMont` | mlkem_native/src/poly_k.c:295-304 | every component times 2^16 modulo q |
| `PolyVecOps.VecAdd` | mlkem_native/src/poly_k.c:270-290 | componentwise sum, within 16 bits |
| `PolyVecOps.VecReduce` | mlkem_native/src/poly_k.c:255-264 | canonical representatives of every component |
| `PolyVecOps.VecToBytes` | mlkem_native/src/poly_k.c:85-99 | the concatenated 12-bit encodings |
| `PolyVecOps.VecFromBytes` | mlkem_native/src/poly_k.c:105-114 | the 12-bit fields of every chunk |
| `PolyVecOps.VecCompress` | mlkem_native/src/poly_k.c:49-59 | the concatenated encodings of the rounded components |
| `PolyVecOps.VecDecompress` | mlkem_native/src/poly_k.c:65-75 | the decompressed fields of every chunk |
| `PolyVecOps.MatVecMul` | mlkem_native/src/indcpa.c:304-325 | every row is 2^-16 times its scalar product with the vector |
| `PolyVecOps.RingProduct` | mlkem_native/src/indcpa.c:558-566 | transforming, reducing, multiplying with the cache and transforming back gives the scalar product of the two vectors in the ring, modulo q and below q |
| `KpkeSpec.BilinearForm` | mlkem_native/src/indcpa.c:304-325 | (A s).r equals s.(A^T r) for transformed matrices and vectors, over the integers |
| `KpkeCorrect.PlainIsNoisy` | mlkem_native/src/indcpa.c:598-638 | what decryption rounds is the message polynomial plus e.r + e2 + c_v - s.(e1 + c_u), modulo q |
| `KpkeCorrect.BitSurvives` | mlkem_native/src/compress.c:737-757 | a message bit survives if and only if its centred noise lies in [-832, 832 - bit] |
| `KpkeCorrect.SmallNoiseFits` | mlkem_native/src/indcpa.c:598-638 | noise of at most 831 in absolute value fits whatever the bit is |
| `KpkeCorrect.SmallNoiseDecrypts` | mlkem_native/src/indcpa.c:436-638 | when every centred noise coefficient is at most 831 in absolute value, decryption returns the message |
| `KpkeCorrect.KpkeDecrypts` | mlkem_native/src/indcpa.c:436-638 | for every key, message and coins, decryption of the encryption returns the message if and only if every coefficient of the noise fits |
| `Kpke.InverseProduct` | mlkem_native/src/indcpa.c:548-556 | multiply-accumulate and inverse transform: the Montgomery factors cancel |
| `Kpke.MontgomeryProduct` | mlkem_native/src/indcpa.c:479-481 | multiply-accumulate and conversion to the Montgomery domain: the factors cancel |
| `Kpke.IndcpaKeypair` | mlkem_native/src/indcpa.c:436-505 | byte for byte the encoded t = A s + e, the seed, and the encoded transform of s; the first half of G(coins || k) is the seed that ends the key and gives the matrix, entry (i, j) from index bytes j and i, and the second half gives s and e from nonces 0 to 2k - 1; all sums stay within 16 bits |
| `Kpke.IndcpaEnc` | mlkem_native/src/indcpa.c:518-590 | byte for byte the compressed u = A^T r + e1 and v = t.r + e2 + message, with r, e1 and e2 from nonces 0 to 2k of the coins and the matrix from the seed at the end of the key; all sums stay within 16 bits |
| `KpkeFields.PublicKeyBytes` | mlkem_native/src/indcpa.c:57-68 | bytes 384 i to 384 i + 383 of a public key are the 12-bit fields of row i of A s + e, and the last 32 are the seed |
| `KpkeFields.SecretKeyBytes` | mlkem_native/src/indcpa.c:101-107 | chunk i of a secret key is the transform of s[i] |
| `KpkeFields.CiphertextLengths` | mlkem_native/src/params.h:33-55 | ciphertexts have 768, 1088 and 1568 bytes: 640, 960 or 1408 for u, then 128 or 160 for v |
| `KpkeFields.CiphertextBytes` | mlkem_native/src/indcpa.c:137-142 | a ciphertext is the rounded components of u, 32 d bytes each, and then the rounded v |
| `KpkeFields.CipherUAt` | mlkem_native/src/indcpa.c:558-575 | component i of u comes from column i of the matrix |
| `KpkeFields.CipherVIs` | mlkem_native/src/indcpa.c:558-575 | v is t.r + e2 and the message, with t in the 12-bit fields of the key |
| `KpkeFields.MessageCoefficient` | mlkem_native/src/compress.c:697-727 | coefficient 8 j + b of a message polynomial is 1665 if bit b of byte j is set and 0 if not |
| `Kpke.IndcpaDec` | mlkem_native/src/indcpa.c:598-638 | the message bits rounded from v - s.u; all sums stay within 16 bits |
| `Kpke.MatrixTransposed` | mlkem_native/src/indcpa.c:211-290 | generating the transpose directly gives the transpose |
| `Verify.Select` | mlkem_native/src/verify.h:311-315 | the mask arithmetic selects the first value exactly when the condition is non-zero |
| `Verify.Memcmp` | mlkem_native/src/verify.h:338-369 | 0 if the arrays are equal, 255 otherwise |
| `Verify.CmovZero` | mlkem_native/src/verify.h:388-406 | copies exactly when the condition is zero |
| `Kem.CheckPk` | mlkem_native/src/kem.c:44-72 | returns 0 exactly when every 12-bit field of the encoded vector is below q |
| `Kem.CheckSk` | mlkem_native/src/kem.c:80-119 | returns 0 exactly when the stored hash is the hash of the stored public key |
| `Kem.KeypairDerand` | mlkem_native/src/kem.c:233-271 | public key, and secret key with its four parts |
| `Kem.EncDerand` | mlkem_native/src/kem.c:315-359 | refuses exactly the keys the modulus check refuses; otherwise the secret is the first half of G(m || H(pk)) and the ciphertext encrypts m with the second half as coins |
| `Kem.Dec` | mlkem_native/src/kem.c:403-469 | with g = G(m' || h) of the decrypted m' and the stored hash h: the first half of g if encrypting m' with the second half gives the ciphertext again, and J(z || c) otherwise; a wrong stored hash is refused |
| `Kem.HonestKeyPasses` | mlkem_native/src/kem.c:44-72 | every generated public key passes the modulus check |
| `Kem.KemAgrees` | mlkem_native/src/kem.c:403-469 | for every seed, message and coins whose noise fits, decapsulation returns the encapsulated secret |
| `Kem.Exchange` | mlkem_native/src/kem.c:315-469 | key generation, encapsulation and decapsulation in a row on the keys and noise derived from the given coins: no check fails, the sent secret is the first half of G(m || H(pk)), and the received one equals it whenever the noise fits, in particular when no centred coefficient exceeds 831 |
| `Sponge.PadIsPad101` | mlkem_native/src/fips202/fips202.c:91-103 | message, domain byte and padding bytes are the message bits, the suffix and pad10*1, also when both share the last byte |
| `Sponge.OneBlock` | mlkem_native/src/fips202/fips202.c:55-104 | a message shorter than a block is padded, put into an empty state and permuted once; the output is the beginning of the result |
| `Sponge.AbsorbMore` | mlkem_native/src/fips202/fips202.c:55-104 | each further block is added to the state and permuted |
| `Sponge.PaddedBlocks` | mlkem_native/src/fips202/fips202.c:91-103 | the padded message is a whole number of blocks |
| `Sponge.TailIsBlock` | mlkem_native/src/fips202/fips202.c:86-103 | the separate additions of tail, domain byte and last bit add one padded block |
| `Sponge.AbsorbOnce` | mlkem_native/src/fips202/fips202.c:54-104 | for every permutation, rate and input, one permutation away from the state of the specification; for four ways, in every lane |
| `Sponge.AbsorbZeroed` | mlkem_native/src/fips202/fips202x4.c:25-78 | every lane absorbs as the scalar form does |
| `Sponge.SqueezeBlocks` | mlkem_native/src/fips202/fips202.c:114-138 | the next blocks of output and the state after them, in every lane |
| `Sponge.SqueezePrefix` | mlkem_native/src/fips202/fips202.c:150-185 | a shorter output is the beginning of a longer one |
| `Sponge.SqueezeOnce` | mlkem_native/src/fips202/fips202.c:150-185 | the squeeze of the specification for every output length |
| `Sponge.BlocksSplit` | mlkem_native/src/fips202/fips202.c:114-138 | squeezing n then m blocks equals squeezing n + m |
| `Sponge.BlocksAreSqueeze` | mlkem_native/src/fips202/fips202.c:114-185 | block output cut at any length is the squeeze of the specification |
| `Sponge.Hash` | mlkem_native/src/fips202/fips202.c:208-243 | one-shot hashing computes the sponge of sections 4 and 6 of FIPS 202 for every input and output length |
| `Sponge.HashFour` | mlkem_native/src/fips202/fips202x4.c:164-201 | each of the four outputs equals the scalar sponge of its input |
| `Sampling.RejUniform` | mlkem_native/src/sampling.c:33-83 | appends exactly the accepted candidates in order, up to the target, and stops early only at the end of the buffer |
| `Sampling.AcceptedAreFields` | mlkem_native/src/sampling.c:33-83 | the candidates are the 12-bit fields of the stream, in order (Algorithm 7 of FIPS 203) |
| `Sampling.SampleUnique` | mlkem_native/src/sampling.c:155-252 | the sample does not depend on how many blocks were squeezed |
| `Sampling.RejUniformWays` | mlkem_native/src/sampling.c:155-252 | alone or four at a time, the first 256 accepted candidates of each stream (Algorithm 7 of FIPS 203) |
| `Sampling.GenMatrix` | mlkem_native/src/indcpa.c:211-290 | every entry is the sample of the seed followed by its own two index bytes, whatever the batching |
| `Sampling.GeneratedTranspose` | mlkem_native/src/indcpa.c:211-290 | the transposed call returns exactly the transpose of the other |
| `Sampling.MatrixIsGenerated` | mlkem_native/src/indcpa.c:211-290 | the matrix of K-PKE is the generated one when its entries are sampled from their streams |
| `Cbd.MaskedSumCounts` | mlkem_native/src/sampling.c:288-289 | the masked additions count the ones of every field, without carries between fields |
| `Cbd.FieldCount` | mlkem_native/src/sampling.c:299-301 | field k of the sum is the number of ones in field k of the input word |
| `Cbd.PolyCbd` | mlkem_native/src/sampling.c:277-360 | coefficient k is the count of eta input bits minus the count of the next eta (Algorithm 8 of FIPS 203), at most eta in absolute value |
| `Cbd.CoefficientIsOnes` | mlkem_native/src/sampling.c:277-360 | that count over the bits of the input bytes, low bit of each byte first |
| `MlKem.ConcreteHashes` | mlkem_native/src/symmetric.h:29-52 | the samplers and hashes built from any permutation return canonical entries, noise within eta and outputs of the right length, as K-PKE and the KEM require |
| `MlKem.ConcreteRates` | mlkem_native/src/symmetric.h:29-52 | G, H, J and the matrix streams are SHA3-512, SHA3-256, SHAKE256 and SHAKE128: every rate is 200 bytes less twice the security, and the domain bytes stand for the suffixes 01 and 1111 |
| `MlKem.ConcreteNoise` | mlkem_native/src/symmetric.h:29-52 | noise is the binomial sample of 64 eta bytes of SHAKE256 of seed and nonce |
| `MlKem.ConcreteMatrix` | mlkem_native/src/indcpa.c:211-290 | with these samplers the matrix of K-PKE is, entry by entry, the generated one |
| `Noise.Streams` | mlkem_native/src/poly_k.c:474-498 | four at once or one after the other: each output begins with the SHAKE256 stream of its seed and nonce |
| `Noise.GetNoiseFour` | mlkem_native/src/poly_k.c:348-514 | each of the polynomials holds the noise of its own nonce and width, batched or not, with or without the fourth |
| `Noise.GetNoiseOne` | mlkem_native/src/poly_k.c:433-451 | the polynomial holds the noise of its nonce, with eta 2 |
| `Noise.KeypairNoise` | mlkem_native/src/indcpa.c:339-371 | for every k the two vectors of key generation hold exactly the noise that the specification draws |
| `Noise.EncNoise` | mlkem_native/src/indcpa.c:387-424 | for every k the two vectors and the polynomial of encryption hold exactly the noise that the specification draws |
| `SecureChannel.NonceInjective` | secure_channel.hpp:49-52 | different counters give different nonces |
| `SecureChannel.NonceBytes` | secure_channel.hpp:49-52 | byte i of a nonce: four zeros, then the counter with the most significant byte first |
| `SecureChannel.ReadExact` | secure_channel.hpp:57-65 | on success exactly the next n bytes of the stream, however recv cut them |
| `SecureChannel.WriteExact` | secure_channel.hpp:67-75 | all of the data or, on failure, a prefix of it |
| `SecureChannel.Channel.Send` | secure_channel.hpp:86-112 | encrypts under the next nonce and frames it, or refuses (broken, counter exhausted, oversize) without consuming a nonce; a half-written frame breaks the channel |
| `SecureChannel.Channel.Receive` | secure_channel.hpp:117-146 | delivers only what was encrypted under the next expected nonce and breaks the channel otherwise; a broken or exhausted channel delivers nothing; a whole expected frame is delivered |
| `ChannelRuns.Encrypting` | secure_channel.hpp:9-23 | encrypting under the next counter keeps: exactly the nonces below the counter are used, once |
| `ChannelRuns.Accepting` | secure_channel.hpp:13-23 | accepting the expected nonce delivers exactly the next plaintext of the peer |
| `ChannelRuns.SentArrives` | secure_channel.hpp:86-146 | a plaintext accepted by one end, carried over whole and received is delivered by the other |
| `ChannelRuns.Session.Step` | secure_channel.hpp:86-146 | the exact effect of an event: an accepted send appends its plaintext and seals it under the next nonce, a receive delivers the next plaintext of the peer or breaks, a whole expected record is delivered; each direction delivered a prefix of what its peer encrypted and no key and nonce pair is used twice |
| `ChannelRuns.Session.Run` | secure_channel.hpp:13-23 | every run over an arbitrary network follows its events one by one; each side delivered, in order, a prefix of what its peer encrypted |

## Left out

- Loss of data that was written but not fsynced when the power fails: every completed system call is taken to persist, as in the crash tests; a newer value that lives only in an unsynced active segment is not protected.
- Damage to the two length fields of a record: the covered length changes, so detection is only probabilistic and is not claimed.
- RecordFormat.DamageDetected: damage that straddles the checksum and the timestamp is not covered, because then both the checksum and what it covers change.
- Failing or short pwrite and failing ftruncate on a live process: only a write beyond the largest file offset fails here, and then put and del return false.
- Directories damaged by other programs: startup is specified for undamaged directories; the scans and the hint reader are specified for arbitrary bytes.
- Threads and locks: operations are atomic, as one lock covers each of them.
- EngineRuns.Drive: whether a put or del in the last bytes before the largest file offset is refused depends on the length of the active segment, which the plain map does not know; it may be refused only if threshold, header, key and value together exceed that offset.
- Counters, getters, file names and identifiers beyond 19 digits of the segmented engine.
- A file holding a value of 0xFFFFFFFE bytes opened with the single-file engine: no run of the engine writes one, because put refuses it.
- SingleFileEngine.KvEngine.constructor: a missing data file is modelled as an empty one, because opening creates it.
- Aliasing between polynomials: each polynomial is worked on in place in its own array, but vectors of polynomials and byte buffers of K-PKE and the KEM are values.
- PolyCompress.PolyCompress: one member for the five functions of equal shape; width 4 is packed two values at a time where the source unrolls eight.
- PolyCompress.PolyDecompress: one member for the five functions of equal shape.
- Sampling.RejUniformWays: takes as hypothesis that some number of blocks holds enough acceptable candidates, because rejection sampling has no bound of its own.
- Sampling.GenMatrix: the same hypothesis, for every entry.
- Out-of-memory returns, the optional pairwise consistency test, zeroisation, value barriers and constant-time behaviour of the ML-KEM code.
- The Keccak-f[1600] permutation itself and the native back ends.
- The randomised wrappers mlk_kem_keypair and mlk_kem_enc.
- The probability of a decryption failure and the distribution of samples.
- The handshake, the OpenSSL wrappers, the wire codec of the demo and the demo program, which would only add easy members.
