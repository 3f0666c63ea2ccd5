# Verified models of Redis 2.8.9 algorithms

The repository is a Ruby on Rails application that vendors the C sources of Redis 2.8.9. This project
models the algorithmic cores of those C sources and proves what they promise. Code that works in place stays
in place: arrays, classes with the source's fields, loops with the source's control flow. Each such method is
proved against a function on values, and the properties are proved about these functions. What the C code
takes from outside (hash functions, memory contents, write and fork results, iteration orders, read sizes)
is a parameter that may have any value, so every statement holds for all of them.

`dafny verify dfyconfig.toml` checks all files. `Basics.dfy` and `Bytes.dfy` hold what the models share.

## What is modelled

**LZF (`Lzf.dfy`).** `lzf_compress` and `lzf_decompress` over byte arrays. The compressor's hash table starts
with arbitrary addresses. For every such table, a positive result decodes to exactly the input, no byte past
`out_len + 1` is written and the length stays within both bounds; every turn emits a match as long as possible when
the table leads to one, and equal bytes always shrink to about a hundredth. The decoder is proved on every input
of at least one byte, malformed ones included.

**Partial quicksort (`PqSort.dfy`).** `_pqsort` on an array under any total preorder: a permutation that
puts, at each requested position, an element that compares equal to the one a full sort puts there.

**Dictionary (`DictState.dfy`, `DictSizes.dfy`, `DictMap.dfy`, `Dict.dfy`).** The two tables of `dict.c` with incremental
rehashing. In every reachable rehash state the operations are those of a finite map; `Dict.Dict` is the
object with its bucket arrays, every method of which changes it exactly as the value-level operation says.
`DictSizes` says when the table is replaced, by one of what size, and that the calls which use it finish the move.

**Scanning (`Words.dfy`, `DictScan.dfy`, `DictScanOnce.dfy`, `DictScanRuns.dfy`, `DictScanGap.dfy`).** `dictScan` with its reversed
cursor. Each call emits the keys whose bit-reversed hash lies between the two cursors. The guarantee holds of a call during a
rehash if and only if the cursor bits between the two masks, from the low end up, are ones followed by zeros:
`CallCovers` proves one half, and `CallMisses` gives, for every other cursor, a hash that is passed over;
`DictScanGap` shows a whole iteration, between operations of the dictionary, that never emits a key it holds
throughout. Every call of an iteration over a table that only grows, every call outside a rehash and every call
with masks one bit apart is of that shape, and complete iterations from 0 to 0 are proved to emit every key
present throughout. A call emits only stored entries, none twice, and an iteration over a dictionary that does not
change, rehashing or not, emits every entry exactly once (`DictScanOnce`).

**Safe iterators (`DictIter.dfy`, `DictIterator.dfy`).** Interleaved with lookups, additions, replacements and
deletions of the entry just returned, an iterator returns every key that stays exactly once.

**HyperLogLog (`HllCodec.dfy`, `HllMax.dfy`, `Hll.dfy`).** Six-bit packed registers, the run-length form
edited byte by byte, and promotion, all refining 16384 numbers under maximum. The registers after any
additions, in any form and with any threshold, are the largest counts of the elements; merging gives the
registers of the union.

**Append-only file (`Protocol.dfy`, `AofRewrite.dfy`, `Aof.dfy`, `AofEffects.dfy`, `AofServer.dfy`).** The log as bytes: printing
and loading commands, the rewrite, and the server steps execute, flush (complete, short, failed, postponed,
with or without a successful truncation), fork, finish or fail a rewrite, turn on and off. In every reachable
state with the log on, replaying the file followed by the buffer gives exactly the current databases.
`AofEffects` says what each step is for: turning the log on ends with a file that replays to the databases, turning
it off writes the buffer first, a failed rewrite leaves the log as it was. `AofServer` is the server object with the
list of rewrite blocks.

**Request parser (`Request.dfy`, `RequestErrors.dfy`).** `readQueryFromClient` and the multi-bulk parser with the zero-copy path
for big arguments. Printed commands come out as they went in, however the stream is cut into reads; for any other
line it is stated exactly when the parser reads a number, waits, or closes the client.

**RDB strings (`Rdb.dfy`, `RdbStream.dfy`).** Lengths, integer, compressed and verbatim forms, and streams
that may run full. A saved string is loaded back byte for byte, whatever follows, if and only if it is shorter
than 2^32 - 1 bytes: the length 2^32 - 1 is the loader's error mark.

**Transactions (`Multi.dfy`, `MultiIdeal.dfy`, `MultiServer.dfy`).** WATCH, MULTI, EXEC, DISCARD, touches and
flushes of one or all databases, connections and disconnections. The lists stay exact inverses, and every command is
answered as by a machine that simply remembers for each client which of its watched keys was touched.

**Integer set (`IntSetBytes.dfy`, `IntSet.dfy`).** The bytes of `intset.c`: search, insertion, removal and
widening from the back refine a set of 64-bit integers in increasing order.

**Bit operations (`BitOps.dfy`, `BitStrings.dfy`).** `redisPopcount`, `redisBitpos` and the computation of
BITOP against bit-by-bit definitions, for every length and alignment.

**Generator (`Rand.dfy`).** The 16-bit limbs of `rand.c` compute X' = (0x5DEECE66D X + 0xB) mod 2^48, a step
that can be undone.

**SHA-1 (`Sha1.dfy`, `Sha1Known.dfy`, `Sha1Context.dfy`).** `Sha1` follows FIPS 180-4, sections 4.1.1, 5.1.1 and 6.1.2;
`Sha1Context` is the streaming context of `sha1.c`. Any split into updates gives the digest of the whole
message. `Sha1Known` works out the test vector that `sha1.c` quotes, the digest of "abc".

## Where the code does less than it seems to

- `dictScan` during a rehash with masks more than one bit apart can pass over keys, for the cursors named
  above (`DictScanRuns.CallMisses`, `DictScanGap.KeyIsLost`); growing tables never produce such a cursor.
- `rdbSaveRawString` saves strings of 2^32 - 1 bytes that cannot be loaded (`Rdb.SavedStringLoads`,
  `Rdb.LongestIsLost`).
- `SHA1Update` tests for a full block in 32 bits; the test is right if and only if position plus length is
  below 2^32 (`Sha1Context.UpdateTestExact`, `Sha1Context.UpdateTestFails`).
- `dictResize` passes the number of elements through an int and refuses to shrink from 2^31 elements on
  (`DictState.ResizeEffect`, `DictState.LargeIsNotShrunk`).
- `lzf_compress` recognises earlier positions only when the position lies at address 8192 or higher, or the
  input starts at the very last address (`Lzf.SlotTestExact`).
- A short write to the log that cannot be truncated away leaves a file that loads alone if and only if it ends
  between two commands (`Aof.FlushLeavesLoadable`, `Aof.OneByteIsNotLoadable`); together with the buffer it always
  loads (`Aof.FlushConserves`).

## Model
| member | source | states |
|---|---|---|
| Lzf.CopyBackIsReference | redis-stable/src/lzf_d.c:133-143 | a back-reference copy keeps what was written, every byte it adds equals the one at the given distance before it even where source and copy overlap, and nothing else is such a copy |
| Lzf.DecodeAppend | redis-stable/src/lzf_d.c:64-146 | decoding a complete token stream followed by more tokens continues from the decoded prefix |
| Lzf.ReadReference | redis-stable/src/lzf_d.c:94-119 | the two or three bytes of a back-reference give its length and distance, and a cut-off one is reported |
| Lzf.LiteralRun | redis-stable/src/lzf_d.c:68-93 | one literal run has the effect of one step of the format, with the same error |
| Lzf.BackReference | redis-stable/src/lzf_d.c:94-144 | one back-reference has the effect of one step of the format, with the same error |
| Lzf.CopyReference | redis-stable/src/lzf_d.c:133-143 | the byte-by-byte loop computes the overlapping copy |
| Lzf.Decompress | redis-stable/src/lzf_d.c:55-149 | on every input of at least one byte, malformed ones included, the decoder returns what the format says: the data and its length, E2BIG or EINVAL, and writes nothing past the result |
| Lzf.LiteralToken | redis-stable/src/lzf_c.c:261-273 | a run header and its literals appended to a correct stream encode the data with those literals appended |
| Lzf.RefTokenReads | redis-stable/src/lzf_c.c:214-224 | the bytes written for a match are read back as its length and distance |
| Lzf.BackReferenceToken | redis-stable/src/lzf_c.c:211-224 | the bytes written for a match encode the data with the copied match appended |
| Lzf.CopyBackMatches | redis-stable/src/lzf_c.c:151-209 | copying a match reproduces the input even when the match overlaps the bytes being produced |
| Lzf.SlotTestExact | redis-stable/src/lzf_c.c:149-157 | the window test admits, for any slot value whatever, only addresses strictly between the start of the input and the current position, if and only if the current position is at address 8192 or higher (or the input starts at the very last address) |
| Lzf.MatchLength | redis-stable/src/lzf_c.c:169-211 | the match extension returns a length of at least 3 over which the two places agree; it stops only at a difference, at 264 bytes, or within two bytes of the end |
| Lzf.StopRun | redis-stable/src/lzf_c.c:173-174 | back-patching the run header, or taking it back when the run is empty, commits exactly the open run |
| Lzf.PutReference | redis-stable/src/lzf_c.c:214-224 | writes the token of a match |
| Lzf.PutLiteral | redis-stable/src/lzf_c.c:262-272 | copies one byte into the open run and closes a full run |
| Lzf.Step | redis-stable/src/lzf_c.c:145-274 | one turn of the main loop, whatever the table held: at a hit it emits a match as long as the bytes agree and the format allows, of at least three bytes, and otherwise one literal; the output stays an encoding of what was read, and it gives up only when the output is full |
| Lzf.Finish | redis-stable/src/lzf_c.c:276-293 | the last literals complete the encoding |
| Lzf.Compress | redis-stable/src/lzf_c.c:98-294 | for any initial table: a result n > 0 decodes to exactly the input, n is at most out_len and at most in_len + in_len/32 + 1, no byte past out_len + 1 is written, and it succeeds when the output has room for the worst case; at least seven equal bytes always compress, to at most 12 + 3 * ((in_len - 2)/264) bytes, when there is that much room |
| Lzf.KnownStream | redis-stable/src/lzf_d.c:55-149 | nine given bytes decode to a hundred equal ones: two literals, 96 bytes copied from one byte back, two literals |
| Lzf.KnownHash | redis-stable/src/lzf_c.c:48-53 | given values of the rolling hash and of its slot |
| Lzf.HitExactly | redis-stable/src/lzf_c.c:149-167 | the tests of the code hold exactly for a slot that names an earlier position but the first, at most 8192 bytes back, with the same three bytes, five bytes or more before the end |
| Lzf.Probe | redis-stable/src/lzf_c.c:145-167 | finds a match exactly when the slot of the hash leads to one, and leaves the current position in the slot and all other slots alone |
| Lzf.UniformStep | redis-stable/src/lzf_c.c:145-274 | on equal bytes every turn fits and keeps to the pattern of two literals and matches of greatest length, whatever the table held at first |
| PqSort.Med3 | redis-stable/src/pqsort.c:88-96 | the result is one of the three positions and lies between the other two |
| PqSort.Partition | redis-stable/src/pqsort.c:126-156 | permutes the part and splits it into smaller, equal and larger elements than the pivot |
| PqSort.Classify | redis-stable/src/pqsort.c:130-150 | the four-pointer loop collects equal elements at both ends and smaller and larger ones between |
| PqSort.VecSwap | redis-stable/src/pqsort.c:86 | exchanges two blocks and nothing else |
| PqSort.InsertionSort | redis-stable/src/pqsort.c:107-113 | sorts short parts |
| PqSort.MeetsOnBytes | redis-stable/src/pqsort.c:157-176 | the test on byte pointers is the test that a partition meets the requested element range |
| PqSort.SortRange | redis-stable/src/pqsort.c:98-177 | every position of the part that lies in the requested range gets an element no smaller than all before it and no larger than all after it; skipped partitions are permuted at most |
| PqSort.PartialSort | redis-stable/src/pqsort.c:179-185 | the array is a permutation of what it was, and at every position from lrange to rrange stands an element no smaller than everything before it and no larger than everything after it |
| PqSort.PlacedCounts | redis-stable/src/pqsort.c:98-185 | an element that is placed has at most k smaller elements in the whole array and at least k + 1 not larger ones |
| PqSort.AgreesWithFullSort | redis-stable/src/pqsort.c:179-185 | at every position of the range the element compares equal to the one a full sort puts there |
| Words.RankIsReversedVal | redis-stable/src/dict.c:654-662 | reading a word with its bits reversed is reading the reversed word |
| Words.AndMaskIsMod | redis-stable/src/dict.c:878 | for a size that is a power of two, and-ing with size - 1 is the remainder |
| Words.IncrementValue | redis-stable/src/dict.c:813 | adding one to a word adds one to its value, wrapping at the top |
| Words.SwapHalves | redis-stable/src/dict.c:657-660 | one turn of the loop: blocks of half the size trade places |
| Words.Rev | redis-stable/src/dict.c:654-662 | the parallel swaps compute the word with its 64 bits reversed |
| DictState.UnlinkEffect | redis-stable/src/dict.c:415-431 | unlinking an entry removes exactly its key from a chain |
| DictState.TotalZero | redis-stable/src/dict.c:250-261 | a table counts no entries exactly when all its buckets are empty |
| DictState.NextPower | redis-stable/src/dict.c:844-855 | the new size is at least the wanted one and less than twice it |
| DictState.NextPowerIsPower | redis-stable/src/dict.c:844-855 | the new size is a power of two |
| DictState.ExpandEffect | redis-stable/src/dict.c:210-236 | starting an expansion succeeds exactly when no rehash runs and the elements fit; it keeps the map and the state valid |
| DictState.ResizeEffect | redis-stable/src/dict.c:198-207 | shrinking keeps the map and starts exactly when resizing is allowed, no rehash runs and fewer than 2^31 elements are stored: the number goes through an int |
| DictState.LargeIsNotShrunk | redis-stable/src/dict.c:198-207 | a valid state with 2^31 elements, resizing allowed and no rehash running, that is not shrunk |
| DictSizes.ResizeTarget | redis-stable/src/dict.c:198-236 | shrinking starts to move to an empty table of the smallest power of two, at least 4, that holds the elements |
| DictSizes.InsertionGrows | redis-stable/src/dict.c:822-855 | an insertion makes the table grow exactly when no rehash runs and there is no table, or it is full and either resizing is allowed or there are at least six elements to a bucket; it then gets 4 buckets or the smallest power of two that is at least twice the number of elements |
| DictSizes.LookupsEndRehash | redis-stable/src/dict.c:301-306 | with no iterator bound, one lookup more than the old table has buckets ends a rehash; with one bound, no lookup moves anything |
| DictState.ExpandIfNeededEffect | redis-stable/src/dict.c:822-841 | the expansion tried by an insertion cannot fail and leaves a table to insert into |
| DictState.MoveChainEffect | redis-stable/src/dict.c:262-275 | moving a chain entry by entry gives the new table exactly the keys of that chain |
| DictState.SomethingToMove | redis-stable/src/dict.c:258-262 | while the old table counts entries the search for a non-empty bucket stays inside it |
| DictState.MoveBucketEffect | redis-stable/src/dict.c:262-277 | moving a bucket changes no lookup and keeps the two tables disjoint |
| DictState.RehashOneEffect | redis-stable/src/dict.c:246-278 | one turn of rehashing keeps validity and the map, and gets nearer to the end |
| DictState.RehashEffect | redis-stable/src/dict.c:243-280 | any number of turns keeps the map; the result says whether rehashing goes on |
| DictState.AddEffect | redis-stable/src/dict.c:314-362 | adding stores the key exactly when it was absent, and touches no other key |
| DictState.FindEffect | redis-stable/src/dict.c:481-500 | a lookup, which may move a bucket, changes no visible state |
| DictState.DeleteEffect | redis-stable/src/dict.c:401-436 | deletion removes exactly the given key and reports whether it was there |
| DictState.ReplaceEffect | redis-stable/src/dict.c:367-388 | replacement stores the value under the key, reports whether the key is new, and touches no other key |
| DictMap.StoredIsFound | redis-stable/src/dict.c:488-499 | search by hash finds exactly the keys stored anywhere in a valid table |
| DictMap.SizeIsCardinality | redis-stable/src/dict.c:338-362 | the used counters of both tables together are the size of the map: no key is stored twice |
| DictMap.AddRefines | redis-stable/src/dict.c:314-362 | in any rehash state dictAdd puts the pair into the map if the key is absent, and otherwise changes nothing and says so |
| DictMap.ReplaceRefines | redis-stable/src/dict.c:367-388 | in any rehash state dictReplace updates the map at the key and says whether the key is new |
| DictMap.DeleteRefines | redis-stable/src/dict.c:401-436 | in any rehash state dictDelete takes the key off the map and says whether it was there |
| DictMap.RehashRefines | redis-stable/src/dict.c:243-280 | dictRehash never changes the map, and ht[0].size + 1 turns always finish it |
| Dict.Dict.constructor | redis-stable/src/dict.c:174-195 | a new dictionary is valid and empty |
| Dict.Dict.RehashTurn | redis-stable/src/dict.c:246-278 | one turn on the bucket arrays; the object is left valid, in exactly the state the value-level operation of DictState gives |
| Dict.Dict.RehashTurns | redis-stable/src/dict.c:243-280 | the loop of dictRehash; the result is as specified; the object is left valid, in exactly the state the value-level operation of DictState gives |
| Dict.Dict.RehashStep | redis-stable/src/dict.c:309-311 | a step only while no safe iterator is bound; the object is left valid, in exactly the state the value-level operation of DictState gives |
| Dict.Dict.ExpandTo | redis-stable/src/dict.c:210-236 | dictExpand with the size loop; the object is left valid, in exactly the state the value-level operation of DictState gives |
| Dict.Dict.ExpandWhenNeeded | redis-stable/src/dict.c:822-841 | _dictExpandIfNeeded, always successful; the object is left valid, in exactly the state the value-level operation of DictState gives |
| Dict.Dict.Get | redis-stable/src/dict.c:481-500 | dictFind returns the value the map has; the object is left valid, in exactly the state the value-level operation of DictState gives |
| Dict.Dict.Add | redis-stable/src/dict.c:314-362 | dictAdd; the object is left valid, in exactly the state the value-level operation of DictState gives |
| Dict.Dict.Put | redis-stable/src/dict.c:367-388 | dictReplace; the object is left valid, in exactly the state the value-level operation of DictState gives |
| Dict.Dict.Remove | redis-stable/src/dict.c:401-436 | dictDelete; the object is left valid, in exactly the state the value-level operation of DictState gives |
| Dict.Dict.Shrink | redis-stable/src/dict.c:198-207 | dictResize; the object is left valid, in exactly the state the value-level operation of DictState gives |
| Dict.Dict.SkipEmpty | redis-stable/src/dict.c:261 | rehashidx moves to the first non-empty bucket from where it stood, and nothing else changes |
| Dict.Dict.MoveBucket | redis-stable/src/dict.c:262-277 | every entry of the bucket at rehashidx goes to the front of its chain in the new table, the bucket is emptied, both counters and rehashidx follow |
| Dict.Dict.Locate | redis-stable/src/dict.c:862-884 | the search through both tables finds the key exactly when the map has it, and tells table and position |
| DictScan.NextCursorRank | redis-stable/src/dict.c:807-814 | in bit-reversed order the cursor moves to the end of the interval that its masked bits stand for |
| DictScan.IntervalPrefix | redis-stable/src/dict.c:764 | a hash whose reversed value lies in the interval of the cursor agrees with it on the masked bits and is not before it |
| DictScan.CountingCoversExactly | redis-stable/src/dict.c:792-804 | counting the expansion bits up from the cursor meets every bit pattern not before it in reversed order if and only if those bits are ones followed by zeros |
| DictScan.ExpansionEmits | redis-stable/src/dict.c:792-804 | the expansion loop emits every entry of each bucket it counts through |
| DictScan.AdvanceCursor | redis-stable/src/dict.c:809-814 | setting the unmasked bits, reversing, adding one and reversing again is the next cursor |
| DictScan.ScanExpansions | redis-stable/src/dict.c:792-804 | the loop over the larger table emits exactly the expansions and leaves the cursor to be advanced |
| DictScan.Scan | redis-stable/src/dict.c:748-817 | dictScan on the bucket arrays emits and returns what the specification says, whose emissions are sound, free of repetition and complete by the lemmas of DictScanOnce and DictScanRuns |
| DictScanOnce.EmittedIsStored | redis-stable/src/dict.c:748-817 | every entry a call emits is stored, and its hash agrees with the cursor on the smaller mask |
| DictScanOnce.EmittedDistinct | redis-stable/src/dict.c:748-817 | no call emits a key twice, in any rehash state |
| DictScanOnce.EmittedIsBounded | redis-stable/src/dict.c:748-817 | as a multiset, what a call emits is contained in the stored entries |
| DictScanOnce.StoredIsLookup | redis-stable/src/dict.c:481-500 | the entries standing in the buckets of both tables are exactly the pairs of the map |
| DictScanOnce.StoredDistinct | redis-stable/src/dict.c:338-362 | they hold each key once, and there are as many as the used counters say |
| DictScanOnce.PrefixesDiffer | redis-stable/src/dict.c:806-814 | no two calls of an iteration over an unchanged dictionary visit the same bucket of the smaller table |
| DictScanOnce.EveryEntryOnce | redis-stable/src/dict.c:669-817 | an iteration from 0 to the next 0 over a dictionary that does not change, in the middle of a rehash or not, emits exactly the stored entries, as multisets |
| DictScanOnce.IterationExists | redis-stable/src/dict.c:806-814 | from cursor 0 the calls on an unchanged dictionary that is not empty come back to 0 for the first time after exactly as many calls as the smaller table has buckets |
| DictScanRuns.SmallerCovers | redis-stable/src/dict.c:780-788 | entries of the smaller table at the cursor are emitted |
| DictScanRuns.LargerCovers | redis-stable/src/dict.c:790-804 | entries of the larger table in the interval of the cursor are emitted when the extra cursor bits have the right shape |
| DictScanRuns.CallCovers | redis-stable/src/dict.c:748-817 | a call emits every key whose reversed hash lies in the interval between the two cursors, when the extra cursor bits are ones followed by zeros |
| DictScanRuns.CallMisses | redis-stable/src/dict.c:792-804 | when they are not, some hash in that interval is passed over: no entry with it in the larger table is emitted |
| DictScanRuns.CallAdvances | redis-stable/src/dict.c:748-817 | a key not emitted by a call is still ahead of the new cursor, which is not 0 |
| DictScanRuns.IterationEmitsEverything | redis-stable/src/dict.c:664-817 | an iteration from 0 back to 0 emits every key present throughout, through growth, shrinking and rehashing, as long as every call finds its cursor in the right shape |
| DictScanRuns.GrowingCallsAreGood | redis-stable/src/dict.c:664-817 | when the tables only grow between calls every cursor has that shape |
| DictScanRuns.GrowingIterationEmitsEverything | redis-stable/src/dict.c:664-817 | so an iteration over a growing table emits every key present throughout |
| DictScanRuns.RunEmitsEverything | redis-stable/src/dict.c:664-817 | the same for every run of lookups, additions, replacements, deletions and rehashing between the calls |
| DictScanRuns.SettledCallsAreGood | redis-stable/src/dict.c:770-804 | a call is in the right shape outside a rehash and whenever the two masks differ by one bit |
| DictScanRuns.CursorEnds | redis-stable/src/dict.c:807-814 | with an unchanging smaller mask the cursor comes back to 0 after exactly the buckets that remain |
| DictScanRuns.IterationEnds | redis-stable/src/dict.c:748-816 | calls on any states that keep elements and the size of the smaller table end with cursor 0 after exactly the buckets of that table that remain |
| DictScanGap.Reached | redis-stable/src/dict.c:198-280 | dictResize, two rehash turns, dictExpand to 64 and one turn lead from one valid state of a dictionary with key 4 to another |
| DictScanGap.KeyIsLost | redis-stable/src/dict.c:790-804 | on these two states the cursors 0, 8, 2, 1, 3, 0 are an iteration, key 4 is there at every call, and no call emits it |
| DictScanGap.FourIsEmittedBefore | redis-stable/src/dict.c:748-764 | before the sizes change, a call with a cursor of that key emits it |
| DictIter.NextEffect | redis-stable/src/dict.c:567-600 | dictNext returns a stored key that was still ahead, takes exactly that key off what is ahead, and returns NULL only when nothing is ahead |
| DictIter.AddKeeps | redis-stable/src/dict.c:309-362 | an addition during a safe iteration, even one that starts a rehash, leaves every other key ahead exactly as before |
| DictIter.ReplaceKeeps | redis-stable/src/dict.c:367-388 | so does a replacement |
| DictIter.FindKeeps | redis-stable/src/dict.c:481-500 | so does a lookup: no bucket moves |
| DictIter.DeleteKeeps | redis-stable/src/dict.c:401-436 | so does the deletion of the entry just returned |
| DictIter.SafeIteration | redis-stable/src/dict.c:547-611 | a safe iteration returns every key that stays in the dictionary exactly once, whatever happens in between, and releasing the iterator restores the iterator count |
| DictIterator.SafeIterator.constructor | redis-stable/src/dict.c:547-565 | a new iterator has not started and has returned nothing |
| DictIterator.SafeIterator.Advance | redis-stable/src/dict.c:570-585 | goes to the next bucket, or from the old table to the new one, or ends, as the specification of one move says |
| DictIterator.SafeIterator.Turn | redis-stable/src/dict.c:569-598 | one turn of the loop either ends with the state and result of DictIter.Next or stays on the way to them |
| DictIterator.SafeIterator.NextEntry | redis-stable/src/dict.c:567-600 | dictNext returns, and leaves iterator and dictionary, as DictIter.Next says |
| DictIterator.SafeIterator.ReleaseIterator | redis-stable/src/dict.c:602-611 | a started iterator gives back its count, and nothing else changes |
| HllCodec.DenseLayout | redis-stable/src/hyperloglog.c:210-280 | three bytes hold four six-bit registers, least significant bits first |
| HllCodec.GetAfterSet | redis-stable/src/hyperloglog.c:337-360 | setting one packed register changes that register and no other |
| HllCodec.SparseAppend | redis-stable/src/hyperloglog.c:362-386 | the registers of two opcode sequences in a row are those of the first and then those of the second |
| HllCodec.ValCodeRegs | redis-stable/src/hyperloglog.c:377-379 | a VAL opcode that is written describes its run |
| HllCodec.ZeroCodeRegs | redis-stable/src/hyperloglog.c:380-387 | a ZERO or XZERO opcode that is written describes its run of zeros |
| HllCodec.KnownZeroOpcodes | redis-stable/src/hyperloglog.c:107-117 | given bytes for runs of 1, 64, 65 and 16384 zeros: 00xxxxxx and 01xxxxxx yyyyyyyy, each field one less than the run |
| HllCodec.KnownValOpcode | redis-stable/src/hyperloglog.c:118-122 | the byte of two registers of value 3 is 0x89: 1vvvvvxx, each field one less than what it stands for |
| HllMax.PatIndexIsMod | redis-stable/src/hyperloglog.c:460 | the register of an element is its hash modulo 2^14 |
| Hll.CompactKept | redis-stable/src/hyperloglog.c:841-858 | a merge of two VAL opcodes makes no opcode before it mergeable again |
| HllCodec.SplitCodeRegs | redis-stable/src/hyperloglog.c:761-800 | the opcodes of a split describe the old run with one register set |
| HllCodec.MergeOps | redis-stable/src/hyperloglog.c:841-858 | merging two adjacent VAL opcodes of one value changes no register |
| HllCodec.SparseBound | redis-stable/src/hyperloglog.c:370-372 | no sparse register is above 32 |
| HllMax.PatCount | redis-stable/src/hyperloglog.c:444-472 | the count is one more than the number of zero bits above the index, between 1 and 50 |
| HllMax.LargestIsLargest | redis-stable/src/hyperloglog.c:444-498 | the value a register stands for is the largest count among the elements that fall into it |
| HllMax.RegistersAreMaxima | redis-stable/src/hyperloglog.c:485-498 | after any sequence of additions every register is the largest of what it held and the counts of its elements |
| HllMax.OrderAndRepetition | redis-stable/src/hyperloglog.c:485-498 | neither order nor repetition of additions matters |
| HllMax.MergeIsUnion | redis-stable/src/hyperloglog.c:1044-1083 | the maximum of the registers of two HyperLogLogs is the registers of the union of their elements |
| Hll.PatLen | redis-stable/src/hyperloglog.c:444-472 | the loop returns the register and the count of an element |
| Hll.SetRegister | redis-stable/src/hyperloglog.c:350-360 | the macro sets one register of the packed bytes |
| Hll.DenseAdd | redis-stable/src/hyperloglog.c:485-498 | the register of the element becomes the larger of itself and the count, no other changes, and the result says whether it grew |
| Hll.ReadOp | redis-stable/src/hyperloglog.c:592-610 | one opcode of the loops over the sparse form: its value, its run and its size |
| Hll.SetRun | redis-stable/src/hyperloglog.c:603-607 | sets the registers of one VAL opcode and no others |
| Hll.SplitIsReplacement | redis-stable/src/hyperloglog.c:720-800 | what replaces an opcode describes its registers with the one raised |
| Hll.NewOps | redis-stable/src/hyperloglog.c:720-800 | the bytes chosen in cases B, C and D are such a replacement |
| Hll.Hll.constructor | redis-stable/src/hyperloglog.c:1089-1119 | a new object is sparse, valid and all zeros |
| Hll.Hll.MakeRoom | redis-stable/src/hyperloglog.c:662 | the buffer gets room for n more bytes and keeps its own |
| Hll.Hll.ReplaceBytes | redis-stable/src/hyperloglog.c:815-818 | the memmove and memcpy replace exactly the bytes of one opcode |
| Hll.Hll.Locate | redis-stable/src/hyperloglog.c:666-695 | finds the opcode that describes the register, with its first register and span |
| Hll.Hll.MergeFrom | redis-stable/src/hyperloglog.c:822-862 | step 4 keeps validity and every register, and of the next five opcodes, less one for every merge made, none is left that could be merged with its successor |
| Hll.Hll.UpdateLocated | redis-stable/src/hyperloglog.c:804-819 | the register is set, the encoding stays valid and takes exactly the bytes the split needs, unless it needs more than before and the configured size has no room for them: then, and only then, nothing changes |
| Hll.Hll.SparseToDense | redis-stable/src/hyperloglog.c:568-619 | the dense form has the registers of the sparse one; REDIS_ERR exactly when the sparse form does not describe 16384 registers, with nothing changed |
| Hll.Hll.Promote | redis-stable/src/hyperloglog.c:869-882 | after a promotion the addition does change a register, so the assertion holds |
| Hll.Hll.SparseAdd | redis-stable/src/hyperloglog.c:638-882 | in the sparse form or by promotion the registers become the old ones with one raised to the maximum, and the result says whether it changed; promotion happens only for a count above 32 or when three more bytes could pass the configured size, and a form that stays sparse grows only within it |
| Hll.Hll.Add | redis-stable/src/hyperloglog.c:1027-1034 | hllAdd raises one register to the maximum in either form, with the same results |
| Hll.Hll.AddMany | redis-stable/src/hyperloglog.c:1168-1190 | PFADD: for any promotion threshold the registers are those after all additions, the result says whether any changed, the cached cardinality is invalidated exactly when one did, and a form that stays sparse grows only within the threshold |
| Hll.Hll.Merge | redis-stable/src/hyperloglog.c:1044-1083 | hllMerge raises the given registers to the maximum with the object's; REDIS_ERR exactly for a wrong number of registers |
| Hll.Hll.Store | redis-stable/src/hyperloglog.c:1327-1336 | PFMERGE writes exactly the merged registers, in the dense form, and invalidates the cache; for a corrupted object nothing changes |
| Protocol.ValueOfDigits | redis-stable/src/aof.c:372-395 | reading a printed number gives it back |
| Protocol.DigitsOfValue | redis-stable/src/util.c:220-243 | digits without a leading zero are the only way to print their value |
| Protocol.KnownCommand | redis-stable/src/aof.c:372-395 | the bytes of a given command of one argument, and of a number of four digits |
| Protocol.CatGenericCommand | redis-stable/src/aof.c:372-395 | the loop appends the multi-bulk form of a command |
| Protocol.CommandLoads | redis-stable/src/aof.c:571-587 | a printed command is loaded as it was, whatever follows |
| Protocol.AllLoad | redis-stable/src/aof.c:552-619 | a printed sequence of commands is loaded as it was |
| Protocol.LoadAppend | redis-stable/src/aof.c:552-619 | a log that loads still loads, with the same commands first, when more is appended |
| Protocol.CutLoads | redis-stable/src/aof.c:552-632 | a log of printed commands that is cut off loads if and only if the cut falls between two commands |
| AofRewrite.ExecAllAppend | redis-stable/src/aof.c:552-619 | running two lists of commands is running one after the other |
| AofRewrite.ReplayAppend | redis-stable/src/aof.c:552-619 | appending printed commands to a log replays them after what was there |
| AofRewrite.AddItemsAppend | redis-stable/src/aof.c:653-706 | adding items to a collection in two commands is adding them in one |
| AofRewrite.BatchesAdd | redis-stable/src/aof.c:653-706 | the commands of at most 64 items rebuild the whole collection |
| AofRewrite.BatchCount | redis-stable/src/aof.c:653-706 | no more commands than needed are written for a collection |
| AofRewrite.BatchesAreSlices | redis-stable/src/aof.c:653-706 | the i-th command of a collection holds exactly its i-th 64 items, which for a hash are 128 arguments |
| AofRewrite.CommandNames | redis-stable/src/aof.c:665-870 | the commands written are SELECT, SET, RPUSH, SADD and HMSET |
| AofRewrite.ListedItems | redis-stable/src/aof.c:710-753 | the items an iteration lists, in any order, are the collection |
| AofRewrite.EntryRebuilds | redis-stable/src/aof.c:935-973 | the commands of one key put its value there |
| AofRewrite.EntriesRebuild | redis-stable/src/aof.c:935-974 | the commands of a database's keys rebuild it |
| AofRewrite.CommandsRebuild | redis-stable/src/aof.c:911-983 | with a SELECT for every database that is not empty, the whole dataset is rebuilt |
| AofRewrite.WriteItems | redis-stable/src/aof.c:653-706 | the loop over items, with its counters, writes exactly those commands |
| AofRewrite.WriteEntry | redis-stable/src/aof.c:945-966 | the commands of one key are written |
| AofRewrite.RewriteAppendOnlyFile | redis-stable/src/aof.c:889-983 | the whole rewrite writes the commands of the snapshot, and loading them gives exactly the databases |
| AofRewrite.RewriteRebuilds | redis-stable/src/aof.c:889-1000 | loading the rewritten file rebuilds exactly the dataset it was written from, in whatever order the dictionaries were walked |
| Aof.FeedLogs | redis-stable/src/aof.c:434-482 | feeding a command, with SELECT when the database differs, to a log that replays to the dataset gives one that replays to the dataset after it |
| Aof.ExecuteKeeps | redis-stable/src/aof.c:434-482 | executing and feeding a command keeps file, buffer and rewrite buffer consistent with the dataset |
| Aof.FlushConserves | redis-stable/src/aof.c:230-370 | a complete, short, failed or postponed write, with or without a successful truncation, loses and duplicates nothing of file and buffer |
| Aof.FlushKeeps | redis-stable/src/aof.c:230-370 | a flush keeps consistency |
| Aof.FlushKeepsLoadable | redis-stable/src/aof.c:283-312 | a flush whose short write, if there is one, is truncated away leaves a file that loads by itself |
| Aof.FlushLeavesLoadable | redis-stable/src/aof.c:230-340 | after a flush of whole commands the file alone loads if and only if nothing stays of a short write or what stays ends where a command ends |
| Aof.OneByteIsNotLoadable | redis-stable/src/aof.c:283-312 | one byte of a command that cannot be truncated away makes the file alone unloadable |
| Aof.ForkKeeps | redis-stable/src/aof.c:1005-1054 | starting a rewrite keeps consistency, and the child's file replays to the snapshot |
| Aof.DoneKeeps | redis-stable/src/aof.c:1093-1227 | the end of a rewrite, with or without failures, keeps consistency through the file switch |
| AofEffects.DoneSwitches | redis-stable/src/aof.c:1093-1227 | when child, open, write and rename succeed, loading the log gives the commands of the child's file and then those fed since; the descriptor follows unless there was none, the buffer is dropped with it, and a server that waited for the rewrite is on |
| AofEffects.DoneFails | redis-stable/src/aof.c:1093-1227 | when any of them fails, file, descriptor, buffer and state are as before, the child and its differences are gone, and a server that waits schedules another rewrite |
| AofEffects.TurningOn | redis-stable/src/aof.c:192-1227 | from off, a start and then any run of steps without a stop: the next successful end of a rewrite leaves the log on, with an empty buffer and a file that replays to the databases of that moment |
| AofEffects.TurningOff | redis-stable/src/aof.c:165-188 | turning the log off forces the flush first, which is never postponed: when its write is complete the file alone replays to the databases; a rewriting child is given up |
| AofEffects.OnlyStopTurnsOff | redis-stable/src/aof.c:165-211 | no run of steps without a stop turns the log off |
| AofEffects.StartWaits | redis-stable/src/aof.c:192-211 | a start succeeds exactly when the file opens, no child runs and fork succeeds; the server then waits for a child whose file holds the commands of the snapshot, and otherwise stays off |
| AofEffects.ForkStarts | redis-stable/src/aof.c:1005-1054 | a rewrite starts exactly when none is running and fork succeeds; the child's file loads as the commands of the snapshot |
| AofEffects.FedCommands | redis-stable/src/aof.c:434-466 | what is fed for a command loads as the command, after a SELECT exactly when the command before was for another database |
| AofEffects.FlushWaits | redis-stable/src/aof.c:230-340 | a flush is put off exactly under everysec, unforced, while a sync runs, for less than two seconds since the first one put off; any other whose bytes are all taken moves the buffer to the file and clears the error |
| AofEffects.ForcedFlushWrites | redis-stable/src/aof.c:230-340 | a forced flush whose bytes are all taken empties the buffer into the file |
| AofEffects.FailedFlush | redis-stable/src/aof.c:263-321 | a failed or short write that ftruncate undoes changes neither file nor buffer; the process exits exactly under the policy always |
| Aof.StartKeeps | redis-stable/src/aof.c:192-211 | turning the log on keeps consistency |
| Aof.StopKeeps | redis-stable/src/aof.c:165-188 | turning the log off keeps consistency |
| Aof.StepKeepsConsistent | redis-stable/src/aof.c:165-1227 | every step that does not end the process keeps consistency, commands that change nothing and are not fed included |
| Aof.LoadedIsConsistent | redis-stable/src/aof.c:526-632 | a server that has loaded a log is consistent |
| Aof.RunLogsDataset | redis-stable/src/aof.c:165-1227 | in every reachable state with the log on, replaying the file and then the buffer gives exactly the current databases; with an empty buffer the file alone does; while a child rewrites, its file and the rewrite buffer do too |
| Aof.FreshRunLogsDataset | redis-stable/src/aof.c:165-1227 | the same for every run from an empty log: replaying the file and then the buffer gives exactly the current databases |
| AofServer.RewriteBuffer.Size | redis-stable/src/aof.c:77-86 | the computed size is the number of bytes appended |
| AofServer.RewriteBuffer.AppendPiece | redis-stable/src/aof.c:93-126 | one turn of the loop fills the last block and adds one when bytes are left |
| AofServer.RewriteBuffer.Append | redis-stable/src/aof.c:89-126 | the blocks hold the old contents followed by the new bytes |
| AofServer.RewriteBuffer.WriteTo | redis-stable/src/aof.c:131-152 | all blocks are written in order, and -1 is returned exactly when some write is short |
| AofServer.SelectBytes | redis-stable/src/aof.c:443-445 | the printed SELECT text is the multi-bulk form of the command |
| AofServer.AofServer.constructor | redis-stable/src/aof.c:526-534 | the initial state; the new state is exactly the one of the corresponding function of Aof |
| AofServer.AofServer.FeedText | redis-stable/src/aof.c:434-466 | the bytes fed for one command; the new state is exactly the one of the corresponding function of Aof |
| AofServer.AofServer.FeedAppendOnlyFile | redis-stable/src/aof.c:434-482 | feedAppendOnlyFile; the new state is exactly the one of the corresponding function of Aof |
| AofServer.AofServer.WriteFailed | redis-stable/src/aof.c:273-321 | the error branch after a short or failed write; the new state is exactly the one of the corresponding function of Aof |
| AofServer.AofServer.FlushAppendOnlyFile | redis-stable/src/aof.c:230-340 | flushAppendOnlyFile up to its fsync; the new state is exactly the one of the corresponding function of Aof |
| AofServer.AofServer.RewriteBackground | redis-stable/src/aof.c:1005-1054 | rewriteAppendOnlyFileBackground with the child's work; the new state is exactly the one of the corresponding function of Aof |
| AofServer.AofServer.SwitchFile | redis-stable/src/aof.c:1166-1196 | the switch to the rewritten file; the new state is exactly the one of the corresponding function of Aof |
| AofServer.AofServer.CleanupRewrite | redis-stable/src/aof.c:1218-1227 | the cleanup part of the handler; the new state is exactly the one of the corresponding function of Aof |
| AofServer.AofServer.RewriteDone | redis-stable/src/aof.c:1093-1227 | backgroundRewriteDoneHandler, whose effect DoneSwitches and DoneFails state; the new state is exactly the one of the corresponding function of Aof |
| AofServer.AofServer.StartAppendOnly | redis-stable/src/aof.c:192-211 | startAppendOnly; the new state is exactly the one of the corresponding function of Aof |
| AofServer.AofServer.StopAppendOnly | redis-stable/src/aof.c:165-188 | stopAppendOnly; the new state is exactly the one of the corresponding function of Aof |
| Rdb.LenRoundTrip | redis-stable/src/rdb.c:82-136 | a saved length below 2^32 is loaded back, consuming exactly its bytes |
| Rdb.IntegerLoads | redis-stable/src/rdb.c:141-190 | an integer-encoded string is loaded as the decimal it was |
| Rdb.VerbatimLoads | redis-stable/src/rdb.c:292-299 | a string saved verbatim is loaded back |
| Rdb.LzfLoads | redis-stable/src/rdb.c:212-266 | a string saved compressed is loaded back |
| Rdb.LoadedIsShort | redis-stable/src/rdb.c:333-359 | the loader never returns a string of 2^32 - 1 bytes or more |
| Rdb.SavedStringLoads | redis-stable/src/rdb.c:270-359 | whatever form was chosen, and whatever follows in the file, a saved string is loaded back byte for byte if and only if it is shorter than 2^32 - 1 bytes |
| Rdb.StringStable | redis-stable/src/rdb.c:333-359 | bytes after a string that loads are left where they are |
| Rdb.CutStringFails | redis-stable/src/rdb.c:270-359 | a saved string that is cut off anywhere does not load |
| Rdb.LongestIsLost | redis-stable/src/rdb.c:111-136 | a string of 2^32 - 1 bytes is saved but not loaded |
| Rdb.IntegersAreShort | redis-stable/src/rdb.c:196-210 | with a parser that reads decimals exactly the 32-bit integers are encoded, in at most five bytes |
| Rdb.KnownForms | redis-stable/src/rdb.c:82-159 | given bytes of saved lengths, integers and compressed strings |
| Rdb.IntegerSize | redis-stable/src/rdb.c:141-159 | an integer takes two, three or five bytes, the fewest that hold it, and no form when it has more than 32 bits |
| RdbStream.WroteMore | redis-stable/src/rdb.c:232-243 | one of several writes: when it is cut short, so is the whole, at the same byte |
| RdbStream.WriteLen | redis-stable/src/rdb.c:82-106 | writes the bytes of the length and returns how many; -1 exactly when they do not fit |
| RdbStream.ReadLen | redis-stable/src/rdb.c:111-136 | returns what Rdb.LoadLen finds in the stream, REDIS_RDB_LENERR at a cut-off length, and leaves the rest |
| RdbStream.SaveLzf | redis-stable/src/rdb.c:212-247 | 0 with nothing written, or an LZF form that decodes to the string and is at least four bytes smaller before its header; the compressor gets a buffer of exactly outlen + 1 bytes |
| RdbStream.SaveRawString | redis-stable/src/rdb.c:270-300 | the integer form of a short integer, and otherwise the verbatim or an LZF form, is appended and its length returned; -1 exactly when it does not fit, after writing what fits |
| RdbStream.ReadInteger | redis-stable/src/rdb.c:166-191 | returns the decimal of the integer Rdb.LoadInteger finds, fails on a cut-off one, panics on an unknown encoding |
| RdbStream.ReadCompressed | redis-stable/src/rdb.c:249-266 | decompresses the bytes of the string, at least one, into a zeroed buffer of the announced length, or fails |
| RdbStream.ReadLzf | redis-stable/src/rdb.c:249-266 | reads both lengths and the compressed bytes; returns the data, or failure for anything cut off or corrupt |
| RdbStream.LoadStringObject | redis-stable/src/rdb.c:333-359 | rdbGenericLoadStringObject returns what the specification says and leaves the rest of the stream |
| Multi.RemoveWatchersEffect | redis-stable/src/multi.c:239-256 | unwatching takes the client off exactly the lists of its keys and drops empty lists |
| Multi.WatchKeyKeeps | redis-stable/src/multi.c:202-229 | watching a key keeps the two kinds of lists inverse |
| Multi.UnwatchKeeps | redis-stable/src/multi.c:233-257 | so does dropping all watches |
| MultiIdeal.WatchSame | redis-stable/src/multi.c:307-317 | WATCH does what the ideal machine does |
| MultiIdeal.TouchSame | redis-stable/src/multi.c:261-279 | touching a key marks the clients that watch it and no others |
| MultiIdeal.FlushSame | redis-stable/src/multi.c:284-305 | a flush marks the clients that watch an existing key of a flushed database and no others; the ideal machine says in its own words which keys a flush removes |
| MultiIdeal.FlushAll | redis-stable/src/multi.c:284-305 | after FLUSHALL no key is left, and a client is dirty exactly when it was or it watches a key that existed, in any database |
| MultiIdeal.FlushDb | redis-stable/src/multi.c:284-305 | after FLUSHDB exactly the keys of the other databases are left, and a client is dirty exactly when it was or it watches a key of this database that existed |
| MultiIdeal.ExecSame | redis-stable/src/multi.c:114-170 | EXEC answers, runs its queue and cleans up as the ideal machine does |
| MultiIdeal.StepSame | redis-stable/src/multi.c:56-323 | every step gives the same answer in both machines and keeps them in step |
| MultiIdeal.ServerBehavesIdeally | redis-stable/src/multi.c:56-323 | in every run from the empty server every command is answered as by the ideal machine, where EXEC runs its queue exactly when every command was queued and no watched key was touched since it was watched |
| MultiIdeal.ListsStayInverse | redis-stable/src/multi.c:202-257 | in every reachable state the lists of watching clients and of watched keys are exact inverses, without duplicates or empty lists |
| MultiServer.MultiServer.WatchForKey | redis-stable/src/multi.c:202-229 | watchForKey; the new state is exactly the one Multi describes |
| MultiServer.MultiServer.UnwatchAllKeys | redis-stable/src/multi.c:233-257 | unwatchAllKeys; every watched key has a list, so its assertion holds; the new state is exactly the one Multi describes |
| MultiServer.MultiServer.TouchWatchedKey | redis-stable/src/multi.c:261-279 | touchWatchedKey; the new state is exactly the one Multi describes |
| MultiServer.MultiServer.TouchWatchedKeysOnFlush | redis-stable/src/multi.c:284-305 | touchWatchedKeysOnFlush, whose effect FlushAll and FlushDb state; the new state is exactly the one Multi describes |
| MultiServer.MultiServer.DiscardTransaction | redis-stable/src/multi.c:72-77 | discardTransaction; the new state is exactly the one Multi describes |
| MultiServer.MultiServer.MultiCommand | redis-stable/src/multi.c:86-93 | multiCommand; the new state is exactly the one Multi describes |
| MultiServer.MultiServer.QueueCommand | redis-stable/src/multi.c:56-70 | queueMultiCommand; the new state is exactly the one Multi describes |
| MultiServer.MultiServer.FlagTransaction | redis-stable/src/multi.c:81-84 | flagTransaction; the new state is exactly the one Multi describes |
| MultiServer.MultiServer.WatchCommand | redis-stable/src/multi.c:307-317 | watchCommand; the new state is exactly the one Multi describes |
| MultiServer.MultiServer.DiscardCommand | redis-stable/src/multi.c:95-102 | discardCommand; the new state is exactly the one Multi describes |
| MultiServer.MultiServer.RunQueue | redis-stable/src/multi.c:145-170 | the loop over the queue; the new state is exactly the one Multi describes |
| MultiServer.MultiServer.ExecCommand | redis-stable/src/multi.c:114-177 | execCommand; the new state is exactly the one Multi describes |
| Request.DigitsParse | redis-stable/src/networking.c:956 | a printed number passes the strict integer parser |
| Request.HeaderInBuffer | redis-stable/src/networking.c:937-956 | at any cut, the end of a header line is found as soon as it is in the buffer, and the printed number is read |
| Request.CountAlong | redis-stable/src/networking.c:932-974 | reading the argument count either advances or waits for more bytes |
| Request.BulkLenAlong | redis-stable/src/networking.c:979-1022 | so does reading an argument length, with or without trimming the buffer |
| Request.ArgAlong | redis-stable/src/networking.c:1024-1050 | so does taking an argument, copied or taken over with the buffer |
| Request.ReadsStopAtArgument | redis-stable/src/networking.c:1109-1123 | a read asks for 16 KB, but with a big argument due for no byte after it |
| Request.BigArgumentTaken | redis-stable/src/networking.c:1032-1041 | a big argument that fills the buffer is taken over whole and leaves an empty buffer |
| Request.ReadKeepsSmall | redis-stable/src/networking.c:1102-1123 | a read of the size asked for never makes the buffer exceed the inline limit while a header may be incomplete |
| Request.MultibulkAlong | redis-stable/src/networking.c:927-1061 | one call ends with exactly the next command or waits, with no protocol error |
| Request.InputAlong | redis-stable/src/networking.c:1063-1100 | after a read everything that could be executed has been |
| Request.AnyCutGivesTheCommands | redis-stable/src/networking.c:927-1162 | commands printed in multi-bulk form come out exactly as they went in, however the stream is cut into reads and whichever arguments take over the buffer |
| RequestErrors.FindCrExactly | redis-stable/src/networking.c:937 | the search for the end of a line finds the first CR, unless a zero byte comes first |
| RequestErrors.String2llExactly | redis-stable/src/util.c:244-305 | string2ll accepts exactly the shortest decimals of the 64-bit integers |
| RequestErrors.CountLine | redis-stable/src/networking.c:946-971 | where a number of arguments is due, any complete line is one of three: a number from 1 to 2^20 that is read, one of at most 0 that is skipped, or any other text, which closes the client |
| RequestErrors.CountWaits | redis-stable/src/networking.c:932-950 | without a complete line the parser waits, and closes the client exactly when 64 KB hold no end of line |
| RequestErrors.BulkMarker | redis-stable/src/networking.c:995-1001 | a complete line without the dollar sign where an argument length is due closes the client |
| RequestErrors.BulkLine | redis-stable/src/networking.c:979-1022 | with it, a number from 0 to 2^29 is read, the buffer being trimmed before a big argument, and any other text closes the client |
| RequestErrors.BulkWaits | redis-stable/src/networking.c:979-993 | without a complete line the parser waits, and closes the client exactly when the buffer holds more than 64 KB and no end of line |
| Request.RequestClient.ReadMultibulkLen | redis-stable/src/networking.c:932-974 | the argument count, on any input, as the functions of Request say |
| Request.RequestClient.ReadBulkLength | redis-stable/src/networking.c:979-1022 | the length of an argument, on any input, as the functions of Request say |
| Request.RequestClient.TakeArgument | redis-stable/src/networking.c:1024-1050 | an argument, with or without a copy, on any input, as the functions of Request say |
| Request.RequestClient.ReadArguments | redis-stable/src/networking.c:976-1052 | the loop over the arguments, on any input, as the functions of Request say |
| Request.RequestClient.ProcessMultibulkBuffer | redis-stable/src/networking.c:927-1061 | processMultibulkBuffer, whose buffer does start with an asterisk when a count is due, on any input, as the functions of Request say |
| Request.RequestClient.ProcessInputBuffer | redis-stable/src/networking.c:1063-1100 | processInputBuffer, on any input, as the functions of Request say |
| Request.RequestClient.ReadQuery | redis-stable/src/networking.c:1102-1162 | readQueryFromClient, on any input, as the functions of Request say |
| IntSetBytes.EncodeDecodes | redis-stable/src/intset.c:55-94 | a stored value is read back |
| IntSetBytes.KnownEncodings | redis-stable/src/intset.c:81-94 | given bytes of two stored values: least significant first, negative ones in two's complement |
| IntSetBytes.ValueEncodingIsSmallest | redis-stable/src/intset.c:45-52 | the value encoding is the smallest width that holds the value |
| IntSetBytes.WrittenElsewhere | redis-stable/src/intset.c:81-94 | writing a number changes no number, of any width, that shares no byte with it |
| IntSetBytes.InsertedElements | redis-stable/src/intset.c:222-229 | a tail moved up and a number written insert it at its position |
| IntSetBytes.RemovedElements | redis-stable/src/intset.c:244-248 | a tail moved down removes a number |
| IntSetBytes.WidenOne | redis-stable/src/intset.c:167-171 | widening from the back overwrites no number still to be read and none already written |
| IntSetBytes.WidenEnd | redis-stable/src/intset.c:173-177 | the new number goes to the free end |
| IntSetBytes.InsertAdds | redis-stable/src/intset.c:204-232 | sorted insertion adds exactly the value to the set |
| IntSetBytes.RemoveDrops | redis-stable/src/intset.c:234-251 | removal takes exactly the value out of the set |
| IntSet.AtAnEnd | redis-stable/src/intset.c:207-213 | a value that does not fit the current width lies below or above all elements, according to its sign |
| IntSet.IntSet.constructor | redis-stable/src/intset.c:97-102 | a new set is empty, valid, two bytes wide and takes no bytes |
| IntSet.IntSet.GetEncoded | redis-stable/src/intset.c:55-73 | returns the number stored at a position in a given width |
| IntSet.IntSet.SetAt | redis-stable/src/intset.c:81-94 | stores a number at a position in the current width, touching no other byte |
| IntSet.IntSet.Resize | redis-stable/src/intset.c:105-109 | the array gets room for exactly the given number of elements and keeps the bytes that fit |
| IntSet.IntSet.Search | redis-stable/src/intset.c:115-154 | the position of the value or, when it is absent, the place where it keeps the order |
| IntSet.IntSet.Find | redis-stable/src/intset.c:254-257 | says exactly whether the value is in the set |
| IntSet.IntSet.MoveTail | redis-stable/src/intset.c:182-201 | the bytes from one position to the end go to another position, as memmove does, and no others change |
| IntSet.IntSet.WidenTo | redis-stable/src/intset.c:163-171 | all elements in the new width, shifted when the new one goes first |
| IntSet.IntSet.UpgradeAndAdd | redis-stable/src/intset.c:157-180 | adds the value, keeping the order, in the smallest width that holds it |
| IntSet.IntSet.Add | redis-stable/src/intset.c:204-232 | adds exactly the value, keeps the order, and says whether it was absent; the width grows exactly when the value needs it, and the buffer has no byte to spare |
| IntSet.IntSet.RemoveValue | redis-stable/src/intset.c:234-251 | removes exactly the value and says whether it was present; the width stays |
| BitOps.CountBitsIsCardinality | redis-stable/src/bitops.c:61-102 | the number of set bits is the size of the set of their positions |
| BitOps.SwarCounts | redis-stable/src/bitops.c:86-96 | the parallel count of a word adds up the counts of its four bytes |
| BitStrings.CountSixteen | redis-stable/src/bitops.c:76-97 | sixteen bytes counted in four words and added in 32 bits |
| BitStrings.Popcount | redis-stable/src/bitops.c:61-102 | for every length and alignment the result is the number of set bits |
| BitStrings.Bitpos | redis-stable/src/bitops.c:110-188 | for every length and alignment the result is the position of the first bit of the wanted kind, -1 for a missing one, the first position past the end for a missing zero |
| BitStrings.ScanWord | redis-stable/src/bitops.c:149-183 | the scan of the last word finds the bit; the panic after it is never reached |
| BitStrings.FirstBitIsUnique | redis-stable/src/bitops.c:104-109 | that result is unique |
| BitStrings.WordTurn | redis-stable/src/bitops.c:352-405 | one turn of the unrolled loops combines 32 bytes of all strings |
| BitStrings.ByteLoop | redis-stable/src/bitops.c:409-424 | the byte loop combines one byte of all strings, zeros past their ends |
| BitStrings.Bitop | redis-stable/src/bitops.c:335-424 | the result is as long as the longest string and every byte of it is combined from all strings padded with zeros |
| BitStrings.CombineIsBitwise | redis-stable/src/bitops.c:409-424 | combining bytes is combining bits |
| Rand.LimbsMultiply | redis-stable/src/rand.c:80-93 | the limb products and carries add up to one step of the generator |
| Rand.StepIsInjective | redis-stable/src/rand.c:80-93 | the step can be undone, so no two states have the same successor |
| Rand.Generator.Next | redis-stable/src/rand.c:80-93 | the new state is (0x5DEECE66D X + 0xB) mod 2^48 |
| Rand.Generator.Lrand48 | redis-stable/src/rand.c:71-74 | the result is the new state divided by 2^17, between 0 and 2^31 - 1 |
| Rand.Generator.Srand48 | redis-stable/src/rand.c:76-78 | the seed's 32 bits stand above the fixed low limb |
| Sha1.HashAppend | redis-stable/src/sha1.c:133-152 | hashing whole blocks and then the rest is hashing all |
| Sha1.KIsSquareRoot | redis-stable/src/sha1.c:51-55 | the four round constants are 2^30 times the square roots of 2, 3, 5 and 10, rounded down |
| Sha1Known.KnownDigest | redis-stable/src/sha1.c:10-12 | the digest of "abc" is the test vector the file quotes from FIPS PUB 180-1 |
| Sha1.NumberDigits | redis-stable/src/sha1.c:157-180 | the bytes of a length are its digits to the base 256, most significant first |
| Sha1Context.SwapBytes | redis-stable/src/sha1.c:39-41 | the rotations and masks reverse the bytes of a word |
| Sha1Context.MacroFIsF | redis-stable/src/sha1.c:51-55 | the round functions of the macros are those of section 4.1.1 of FIPS 180-4 |
| Sha1Context.CircularStep | redis-stable/src/sha1.c:47-48 | the sixteen words kept agree with the schedule of eighty of section 6.1.2 of FIPS 180-4 |
| Sha1Context.RoundByRoles | redis-stable/src/sha1.c:51-55 | a macro plays one round when the variables are read from the next role on |
| Sha1Context.CountStep | redis-stable/src/sha1.c:137-141 | the two words count the bits of the message modulo 2^64 |
| Sha1Context.UpdateTestExact | redis-stable/src/sha1.c:142-143 | the 32-bit test for a full block is right if and only if position plus length is below 2^32; past it a full block is taken for an unfinished one; it is right at every position if and only if the length is at most 2^32 - 64 |
| Sha1Context.UpdateTestFails | redis-stable/src/sha1.c:142-143 | with 63 bytes in the buffer, 2^32 - 63 more are not recognised as filling a block |
| Sha1Context.Context.constructor | redis-stable/src/sha1.c:119-129 | the context of the empty message |
| Sha1Context.Context.Transform | redis-stable/src/sha1.c:58-114 | the state after one block is that of section 6.1.2 of FIPS 180-4, whose constants KIsSquareRoot and KnownDigest fix |
| Sha1Context.Context.Update | redis-stable/src/sha1.c:133-152 | whenever position plus length is below 2^32, the context of a message becomes the context of the longer message |
| Sha1Context.Context.PadZeros | redis-stable/src/sha1.c:185-188 | zeros are added until 56 bytes are in the buffer |
| Sha1Context.Context.Final | redis-stable/src/sha1.c:157-199 | the digest is SHA-1 of the whole message, padded as section 5.1.1 of FIPS 180-4 says, however it was split into updates |

## Left out

- Dict.Dict.constructor: chains are sequences of entries, not `next` pointers, and an iterator names its entries by
  key; allocation, sharing of entries and the calls that free keys and values are not modelled.
- DictState.NextPower: sizes are unbounded; from LONG_MAX on the source returns LONG_MAX, a table that cannot be
  allocated.
- DictState.NextPowerIsPower: the same; LONG_MAX is not a power of two.
- Dict.Dict.ExpandTo: the same cap, and allocation never fails.
- Key comparison is equality and the hash is an arbitrary function of the key.
- Unsafe iterators and their fingerprints, `dictGetRandomKey` and the timed rehash of `dict.c`.
- Lzf.Compress: the build switches are as shipped (VERY_FAST, no INIT_HTAB, input checks on); the input does not lie
  below address 8192 and lengths do not wrap around 32 bits; how long the output is
  is bounded, for equal bytes and for the worst case, and otherwise not stated.
- Lzf.Decompress: an input of no bytes, of which the source still reads the first control byte.
- RdbStream.ReadCompressed: a compressed length of 0 is a failure; the source passes it to the decoder, which reads one
  byte past its buffer.
- RdbStream.SaveLzf: strings shorter than 2^32 bytes.
- RdbStream.SaveRawString: the string is shorter than 2^32 bytes; `strtoll` is an arbitrary parser whose result is
  compared with its printed form, as the code does; beyond strings of equal bytes it is left open which the compressor
  shrinks.
- The file format around the strings of `rdb.c`: types, expiry times, doubles, whole-file save and load.
- HllMax.RegistersAreMaxima: the hash function MurmurHash64A is an arbitrary 64-bit function.
- The cardinality estimate of `hyperloglog.c` and its sums, which are floating-point, and its commands other than
  adding and merging; of the header only the encoding and the cache bit are kept.
- Hll.Hll.SparseAdd: an encoding ends at an opcode boundary, and a corrupted one reaches the register of the element
  or is empty; on other byte strings the code reads or writes past its buffer.
- Hll.Hll.AddMany: for objects that are not corrupted.
- Hll.Hll.Merge: what the given registers hold after REDIS_ERR is not stated.
- Keys with an expiry time, the translation of SETEX and EXPIRE, sorted sets and MULTI in `aof.c`.
- AofRewrite.EntryRebuilds: no sorted sets, whose scores are floating-point, and no expiry times.
- AofRewrite.EntriesRebuild: the same.
- AofRewrite.CommandsRebuild: the same.
- AofRewrite.RewriteRebuilds: the same.
- AofRewrite.WriteItems: the writes of the child do not fail; a failing child is an outcome of Aof.Done.
- AofRewrite.WriteEntry: the same, and no sorted sets or expiry times.
- AofRewrite.RewriteAppendOnlyFile: the same; the temporary file, its sync and rename are the child's outcome.
- Aof.RunLogsDataset: a command is a deterministic function of the databases, the selected one and its arguments;
  after an exit of the process (write error under the policy always) nothing is claimed; whether synced bytes reach
  the disk, a failing fstat and reuse of a descriptor after a failed start are not modelled; a file is its bytes.
- Protocol.CommandLoads: loading accepts the numbers that are printed; leading blanks and signs that `atoi` and
  `strtol` accept, and the exit for unknown commands, are not modelled.
- AofServer.AofServer.FeedText: the translation of EXPIRE, PEXPIRE, EXPIREAT and SETEX is not modelled.
- AofServer.AofServer.FeedAppendOnlyFile: the same.
- AofServer.RewriteBuffer.WriteTo: what is in the file after a short write is not stated; the caller discards it.
- Request.AnyCutGivesTheCommands: at most 1024 * 1024 arguments of at most 512 MB each, the parser's own limits.
- Request.RequestClient.ProcessInputBuffer: inline requests and blocked clients are not modelled.
- Request.RequestClient.ReadQuery: a read that fails or ends, the limit on the whole query buffer and sockets are not
  modelled.
- MultiIdeal.ServerBehavesIdeally: clients are values in a map, a queued command is known by its effects on keys,
  watches and flushes; reference counts, monitors, propagation and lazy expiry are not modelled.
- IntSet.IntSet.Add: lengths do not wrap around 32 bits; the layout is that of a little-endian machine and
  bytes added by a resize are arbitrary.
- `intsetRandom` and the conversion of byte order.
- BitStrings.Popcount: the constants of the table of bit counts are taken to be bit counts.
- BitStrings.Bitop: the destination is a new buffer, the unrolled loops combine groups of bytes in the order of the
  source without forming words; SETBIT, GETBIT and the parsing of the commands are not modelled.
- Sha1Context.Context.Update: position plus length below 2^32, the exact limit of its test; little-endian machines.
- Sha1Context.Context.Final: messages shorter than 2^61 bytes, the limit of FIPS 180-4; wiping the context is not
  modelled.
- The Ruby application, the event loop, replication, scripting, configuration and the remaining commands: they
  call other systems or would only add easy members.
