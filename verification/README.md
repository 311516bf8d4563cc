# Kieker monitoring library for C: a verified model

The library records what an instrumented C program does.  Probes on function entry and exit number the calls of each
thread, and stream them as binary records over a socket; strings are replaced by ids that are announced on the stream
when they are first used.  This project models that pipeline in Dafny and proves

* the intrusive hash table behind the per-thread trace registry (`uthash.h`): find, add, delete and replace refine a
  map and an insertion-ordered sequence while every item sits in two linked structures at once; bucket expansion loses
  nothing and keeps its capacity bound; the in-place merge sort is a stable sort that leaves the buckets alone; the
  Jenkins mix is a bijection, is its nine lines on 32-bit vectors, and gives known hash values;
* the tracing protocol from end to end: a reader that sees only the bytes recovers every announcement and record, with
  every field and time of the call that made it, the calls of each thread, and the numbered call trees of properly nested threads, whatever the interleaving;
  the calls that a run's bytes determine, for any reader at all, are characterised exactly;
* the registry under concurrency: safe in every interleaving of its lock sections, with threads that come and go,
  exactly when live threads have distinct ids and no thread ends with an open trace; its lock sections refine the
  registry of the protocol;
* the adaptive include/exclude filter: sorting, duplicate scan and binary search agree with membership of hashes, and
  which names collide under the hash.

`dafny verify dfyconfig.toml` checks the whole project.

## Structure

| files | what they hold |
|---|---|
| `Words`, `Jenkins`, `JenkinsWords` | 32-bit arithmetic, the hash function, and both against bit vectors and known values |
| `TraceItem`, `Chains`, `ExpansionPolicy`, `UtHash`, `UtHashFsck` | the hash table: links, expansion arithmetic, operations, integrity check |
| `MergeSort`, `UtHashSort` | the sort as a function on sequences, and in place on the list |
| `Bytes`, `Interning`, `Wire`, `Decoder` | integers, string ids, fields and records as bytes, and a reader of them |
| `Probes`, `Stream`, `ThreadView`, `CallTree` | the protocol as a state machine, and what a reader gets from its bytes |
| `NameCodes`, `RecordedCalls` | the announced names letter by letter, and what the decoded records say of each call |
| `ThreadRun`, `NonInterference` | one thread on its own, and any interleaving of threads |
| `WireEvidence`, `DecodedTraces` | what the bytes determine for any reader, and the traces found in them |
| `RegistrySteps`, `RegistryRefinement` | the registry functions as separate lock sections, the start and end of threads, and the refinement of the protocol's registry |
| `Serialize`, `Lookup`, `Records`, `TraceRegistry`, `ProbePlain` | the imperative library: buffers, string list, registry and probes, proved to make exactly the steps of the state machine |
| `RecordLayout`, `TraceKeys` | records, announcements and registry keys by byte offset |
| `AdaptiveHash`, `Adaptive` | the string hash and its collisions, the adaptive filter |

The imperative classes carry the fields the C code updates.  `Hash` has ghost fields for the insertion order, the chains
and the map; `Traces` and `Library` have a `View()` that gives the state of the protocol, and every method states its
new state in terms of it.  The results about runs are lemmas on the protocol; `ProbePlain.RunProgram` ties them to the
bytes the imperative library writes.

## Assumptions

* The host is little-endian; `write` appends all its bytes; a run uses one connection.
* Probe calls are serialised where the bytes are concerned: they share one buffer without a lock.
* `kieker_trace_get_next_id` is one step, although its increment is outside the lock
  (`source/libkieker/monitoring/controller/kieker_trace.c:127`).
* The cast of `pthread_self()` to `int` gives live threads distinct ids
  (`source/libkieker/monitoring/controller/kieker_trace.c:27`), ids of ended threads may come back, and no thread ends
  between a probe's lock sections.  That is not enough for the registry: it also needs that no thread ends while it has a
  trace, that is, before it has left every operation it entered (`NonInterference.HasTraceExactlyInside`).
  `RegistrySteps.SafeExactlyWithDistinctIds` and `RegistrySteps.SafeExactlyWhenTidy` show that each of the two
  conditions is needed and that both together are enough.
* Strings are free of zero bytes and at most 8180 bytes long, so that they fit `string_buffer` behind its 12-byte header.
* `WireEvidence.BytesTellExactly` takes runs that leave some thread id unused, as all runs of fewer than 2^32 calls do.
* For the end-to-end results the string table has at most 2^31 entries and the trace ids of the run fit 64 bits
  (`NonInterference.SeedFits` bounds the runs for which they do).
* The clock is an arbitrary integer at each reading.

## Where the code and its comments disagree

The model follows the code.

* The record serializers are documented to return the size of the written structure; they return the position behind it.
* `kieker_controller_get_time_ms` is documented to return milliseconds and computes microseconds; the model takes any
  value.
* `kieker_adaptive_load_exclude_file` is documented to return true on success; it returns 0.
* The next order id of a trace metadata record is filled in and never serialized.
* The adaptive loader says there is not enough space only after it has stored the 201st hash.

## Properties that fail, and when they hold

* Every trace starts with its metadata record only if no thread leaves an operation it has not entered:
  `ThreadRun.MetadataExactlyOnce` (if and only if), `ThreadRun.LeavingFirstGoesUnannounced` (the input).  The same
  condition decides whether a reader recovers the calls: `ThreadView.ReaderRecoversThread`.
* For the same reason the bytes do not determine the calls of such a thread for any reader, and otherwise they do:
  `WireEvidence.BytesTellExactly` (if and only if), `WireEvidence.BytesDoNotTell` (the other run).
* The registry hands a thread another thread's trace once two live threads share an id:
  `RegistrySteps.SafeExactlyWithDistinctIds` (if and only if), `RegistrySteps.SharedIdIsUnsafe` (the run).
* It does so too when a thread ends inside an operation and its id comes back:
  `RegistrySteps.SafeExactlyWhenTidy` (if and only if), `RegistrySteps.EndingInsideIsUnsafe` (the run).
* The filter answers about every class by name only when nothing is listed:
  `Adaptive.Filter.ByNameForAllExactlyWhenEmpty`.  About one class it answers by name under the condition of
  `Adaptive.Filter.AnswersByName` (if and only if); `Adaptive.NamesCollide` gives two names that collide.
* The loader of the filter writes behind its array: `Adaptive.Filter.Load` (it stays inside if and only if at most 200
  names are accepted), `Adaptive.TooManyNamesOverrun` (the input).
* Integers read back unchanged only in the range of their field: `Bytes.WireViewExact`, `Wire.ViewsExact`.

## Model

| member | source | states |
|---|---|---|
| UtHash.Hash.Find | source/libkieker/monitoring/utilities/uthash.h:94-105 | returns exactly the item stored under the key, or null when no item has it |
| UtHash.FindInBkt | source/libkieker/monitoring/utilities/uthash.h:597-608 | returns an item of the chain with the key, or null when the chain holds none |
| UtHash.Hash.MakeTable | source/libkieker/monitoring/utilities/uthash.h:141-158 | a table of 32 empty buckets with every counter at zero; it satisfies the bucket invariant and the capacity bound |
| UtHash.Hash.Add | source/libkieker/monitoring/utilities/uthash.h:173-196 | for a fresh key: the item goes to the end of the insertion order and to the front of its chain, the map gains the key, every link and counter invariant is kept, the table is expanded exactly when the bucket was filled, and the capacity bound holds as long as expansion was not inhibited before |
| UtHash.Hash.AddToList | source/libkieker/monitoring/utilities/uthash.h:173-191 | the list half of adding: list, key map, counter and hash value know the item while the buckets still hold the others |
| UtHash.Hash.AddFirst | source/libkieker/monitoring/utilities/uthash.h:179-182 | the first item starts the list and gets a new table |
| UtHash.Hash.AddLast | source/libkieker/monitoring/utilities/uthash.h:183-187 | a further item is linked behind the tail; all links of the list stay mirrored |
| UtHash.Hash.AddToBkt | source/libkieker/monitoring/utilities/uthash.h:611-622 | pushes the item onto the front of its chain; expands if and only if the count reached its bound and expansion is not inhibited; keeps the multipliers otherwise |
| UtHash.Hash.FilledExactly | source/libkieker/monitoring/utilities/uthash.h:618-621 | one more item sets off an expansion exactly at ten items, ten more for each unit of the multiplier, unless expansion is inhibited |
| UtHash.Hash.Replace | source/libkieker/monitoring/utilities/uthash.h:163-171 | on an existing key returns the old item and moves the key to the end of the order; on a new key adds; the map maps the key to the new item |
| UtHash.Hash.Delete | source/libkieker/monitoring/utilities/uthash.h:215-248 | removes the item and nothing else from order, map and chain, and gives the table up with its last item |
| UtHash.Hash.DeleteAmongOthers | source/libkieker/monitoring/utilities/uthash.h:225-246 | the branch for an item with neighbours, from the same invariant to the same invariant |
| UtHash.Hash.Unlink | source/libkieker/monitoring/utilities/uthash.h:226-242 | the patch-up of the insertion-order list: head, tail and both links of the neighbours |
| UtHash.Hash.Unchain | source/libkieker/monitoring/utilities/uthash.h:243-244 | takes the item out of its chain, keeping placement, links, counters and the capacity bound |
| UtHash.Hash.ExpandBuckets | source/libkieker/monitoring/utilities/uthash.h:666-712 | doubles the buckets and redistributes every chain; order, map and items are untouched; states every field of the table: ideal length (the ceiling, never zero, at most 10), the multiplier of every new bucket (zero up to the ideal length, above it the quotient of count by ideal length, as two inequalities), non-ideal count, ineffective expansions, inhibition; the capacity bound holds even when this expansion inhibits further ones |
| UtHash.Hash.Rehash | source/libkieker/monitoring/utilities/uthash.h:672-700 | the new buckets hold exactly the items, linked and counted, each in the bucket its hash selects |
| UtHash.Hash.SetIdeal | source/libkieker/monitoring/utilities/uthash.h:677-679 | the ideal chain length is the ceiling of items over new buckets, never zero, at most 10 |
| UtHash.Hash.MoveAll | source/libkieker/monitoring/utilities/uthash.h:681-700 | the outer loop: after it every chain is the redistribution of the old ones, and the returned count is the number of non-ideal items |
| Chains.MoveChain | source/libkieker/monitoring/utilities/uthash.h:683-699 | the inner loop: moves all items of one chain, reversed, in front of their new chains |
| Chains.MoveItem | source/libkieker/monitoring/utilities/uthash.h:685-697 | one turn of the inner loop; the bucket the item lands in gets the multiplier zero up to the ideal length, and above it the quotient of count by ideal length, as two inequalities |
| Chains.MultsShare | source/libkieker/monitoring/utilities/uthash.h:688-692 | every new bucket has multiplier zero up to the ideal length, and above it the m with m * ideal <= count < (m + 1) * ideal |
| Chains.NonIdealIsRest | source/libkieker/monitoring/utilities/uthash.h:688-692 | the non-ideal items are those beyond the ideal length of their chains; there are none if and only if no chain is longer |
| Chains.LinkFront | source/libkieker/monitoring/utilities/uthash.h:613-617 | linking at the front keeps `hh_prev` the mirror of `hh_next` |
| Chains.PushFront | source/libkieker/monitoring/utilities/uthash.h:613-617 | links at the front and counts; no other chain and no other bucket changes |
| Chains.DelInBkt | source/libkieker/monitoring/utilities/uthash.h:625-635 | unlinks an item from its chain, counts down, and changes no other chain or bucket |
| Chains.LinkOut | source/libkieker/monitoring/utilities/uthash.h:630-635 | the exact links of every item of the chain after the two updates |
| Chains.AppLinkOut | source/libkieker/monitoring/utilities/uthash.h:232-242 | the exact links of every item of the order after the two updates |
| Chains.DoubledBucket | source/libkieker/monitoring/utilities/uthash.h:198-201 | an item of bucket i of n is in bucket i or i + n of 2n |
| Chains.BucketIsRemainder | source/libkieker/monitoring/utilities/uthash.h:198-201 | the bucket of a hash value is its remainder modulo the number of buckets |
| Chains.ChainLengthsAddUp | source/libkieker/monitoring/utilities/uthash.h:278-309 | conservation: the chain lengths sum to the number of items |
| UtHash.Hash.CountListed | source/libkieker/monitoring/utilities/uthash.h:306-309 | the bucket counters sum to `num_items` |
| UtHash.Hash.LoadIsBounded | source/libkieker/monitoring/utilities/uthash.h:637-648 | while expansion is not inhibited: fewer than 20 items a bucket, ideal length at most 10, every chain within its capacity |
| Words.MaskIsRemainder | source/libkieker/monitoring/utilities/uthash.h:198-201 | masking with 2^k - 1 is the remainder modulo 2^k |
| Words.ShiftIsQuotient | source/libkieker/monitoring/utilities/uthash.h:651-664 | shifting right by k is the quotient by 2^k |
| ExpansionPolicy.BoundedHoldsFewItems | source/libkieker/monitoring/utilities/uthash.h:611-622 | buckets within capacity hold at most ten items for each bucket and each unit of multiplier |
| ExpansionPolicy.GrownHoldsFewItems | source/libkieker/monitoring/utilities/uthash.h:611-622 | when an expansion starts the table holds at most 20 items a bucket |
| ExpansionPolicy.StaysBounded | source/libkieker/monitoring/utilities/uthash.h:618-621 | a count below the expansion trigger, or a deletion, keeps the capacity bound |
| ExpansionPolicy.MultGivesCapacity | source/libkieker/monitoring/utilities/uthash.h:688-692 | the multiplier an expansion hands out keeps the bucket within capacity, and multiplier times ideal length is at most the count |
| ExpansionPolicy.IdealIsCeiling | source/libkieker/monitoring/utilities/uthash.h:651-664 | the shift-and-mask expression is the ceiling of items over new buckets |
| ExpansionPolicy.IdealIsSmall | source/libkieker/monitoring/utilities/uthash.h:677-679 | from at most 20 items a bucket the ideal length is between 1 and 10 |
| ExpansionPolicy.ExpansionBounds | source/libkieker/monitoring/utilities/uthash.h:677-692 | an expansion ends with every bucket within capacity and multipliers summing to at most the number of buckets |
| UtHashFsck.Fsck | source/libkieker/monitoring/utilities/uthash.h:278-328 | on any table whose chains and order end: the check passes if and only if every `hh_prev` and `prev` mirrors its link, every bucket counter is right and both traversals count `num_items` |
| UtHashFsck.WalkBucket | source/libkieker/monitoring/utilities/uthash.h:288-298 | counts the chain, and finds fault if and only if some `hh_prev` is not the item before |
| UtHashFsck.WalkList | source/libkieker/monitoring/utilities/uthash.h:310-321 | counts the order, and finds fault if and only if some `prev` is not the item before |
| UtHashFsck.ValidIsSound | source/libkieker/monitoring/utilities/uthash.h:278-328 | a table that satisfies the invariant can be checked and passes |
| MergeSort.MergeStable | source/libkieker/monitoring/utilities/uthash.h:745-789 | merging two stably sorted runs gives a stably sorted run |
| MergeSort.PassDoublesRuns | source/libkieker/monitoring/utilities/uthash.h:733-791 | a pass doubles the length of the sorted runs |
| MergeSort.SortIsStable | source/libkieker/monitoring/utilities/uthash.h:719-804 | the bottom-up sort yields a stably sorted permutation for any total preorder |
| MergeSort.StablySortedUnique | source/libkieker/monitoring/utilities/uthash.h:715-719 | there is only one stably sorted permutation, so the sort is determined by the order |
| UtHashSort.Emit | source/libkieker/monitoring/utilities/uthash.h:778-788 | appends to the output list, keeping its links mirrored |
| UtHashSort.EmitNext | source/libkieker/monitoring/utilities/uthash.h:778-788 | appends the next item of a run without disturbing the links of the items still to be merged |
| UtHashSort.SkipRun | source/libkieker/monitoring/utilities/uthash.h:735-743 | the size of the left run and the start of the right one |
| UtHashSort.MergeRuns | source/libkieker/monitoring/utilities/uthash.h:744-789 | appends exactly the merge of the two runs and stops at the end of the right run |
| UtHashSort.Pass | source/libkieker/monitoring/utilities/uthash.h:729-795 | one pass computes the merge pass; it made at most one merge if and only if the list is no longer than two runs |
| UtHashSort.SortList | source/libkieker/monitoring/utilities/uthash.h:725-801 | the doubling loop ends and leaves the sorted list linked from head to tail |
| UtHashSort.Sort | source/libkieker/monitoring/utilities/uthash.h:719-804 | for any comparator on the fields of the items: a stable sorted permutation of the insertion order when it is a total preorder, and the bottom-up sort in any case; the invariant is kept; chains, buckets and map are not touched |
| Jenkins.MixIsBijective | source/libkieker/monitoring/utilities/uthash.h:403-414 | the mix is a bijection on triples of words, with an explicit inverse |
| Jenkins.Jen | source/libkieker/monitoring/utilities/uthash.h:416-455 | for a key of any length: the loop and the falling switch compute the block-wise hash, inside the key, and the bucket is below the number of buckets |
| Jenkins.SwitchHash | source/libkieker/monitoring/utilities/uthash.h:439-443 | cases 11 to 9 add bytes 10 to 8 of the rest as the upper bytes of a word |
| Jenkins.SwitchSecond | source/libkieker/monitoring/utilities/uthash.h:444-447 | cases 8 to 5 add bytes 7 to 4 as a little-endian word |
| Jenkins.SwitchFirst | source/libkieker/monitoring/utilities/uthash.h:448-451 | cases 4 to 1 add bytes 3 to 0 as a little-endian word |
| Jenkins.StatesStayDifferent | source/libkieker/monitoring/utilities/uthash.h:416-455 | different registers stay different whatever key bytes follow |
| Jenkins.EveryByteCounts | source/libkieker/monitoring/utilities/uthash.h:416-455 | changing any one byte of any key changes the final registers: no byte is skipped |
| JenkinsWords.XorIsBitwise | source/libkieker/monitoring/utilities/uthash.h:403-414 | a bit of `a ^ b` is set if and only if the bits of a and b differ |
| JenkinsWords.XorValue | source/libkieker/monitoring/utilities/uthash.h:403-414 | `^` on words is `^` on bit vectors |
| JenkinsWords.SubValue | source/libkieker/monitoring/utilities/uthash.h:403-414 | `-` on words is `-` on 32-bit vectors |
| JenkinsWords.RightShifts | source/libkieker/monitoring/utilities/uthash.h:403-414 | the right shifts of the mix on words are those on 32-bit vectors |
| JenkinsWords.LeftShifts | source/libkieker/monitoring/utilities/uthash.h:403-414 | the left shifts of the mix on words are those on 32-bit vectors |
| JenkinsWords.MixValue | source/libkieker/monitoring/utilities/uthash.h:403-414 | the mix is its nine lines, in order and with their shift counts, on 32-bit vectors |
| JenkinsWords.FourByteBucket | source/libkieker/monitoring/utilities/uthash.h:416-455 | the key 1, 0, 0, 0 hashes to 0x6217f7a5 and lies in bucket 5 of 32 |
| JenkinsWords.TwelveByteHash | source/libkieker/monitoring/utilities/uthash.h:416-455 | the key of the bytes 1 to 12, a full block and an empty rest, hashes to 0x9f47346a |
| JenkinsWords.LongKeyHash | source/libkieker/monitoring/utilities/uthash.h:416-455 | the key of the bytes 1 to 23, a full block and eleven bytes, hashes to 0x872863ac |
| Bytes.SwapThenCopyIsBig | source/libkieker/common/utilities/kieker_serialize.c:64-95 | swapping the bytes and copying them little-endian leaves network order |
| Bytes.FromBigInverts | source/libkieker/common/utilities/kieker_serialize.c:64-95 | reading network order back gives the value modulo the width |
| Bytes.WireViewExact | source/libkieker/common/utilities/kieker_serialize.c:64-95 | a reader sees the written integer if and only if it is in the range of the field, and always the same value modulo the width |
| Bytes.WireViewInRange | source/libkieker/common/utilities/kieker_serialize.c:64-95 | what a reader sees is in the range of the field, whatever was written |
| Bytes.IntRoundTrip | source/libkieker/common/utilities/kieker_serialize.c:64-95 | decoding the bytes of a field gives its two's complement view |
| Serialize.CopyLow | source/libkieker/common/utilities/kieker_serialize.c:77-81 | `memcpy` of the low bytes of a value: the bytes at the offset, and no byte behind or before them |
| Serialize.SerializeInt8 | source/libkieker/common/utilities/kieker_serialize.c:38-55 | one byte at the offset, the rest of the buffer unchanged, size 1 |
| Serialize.SerializeInt16 | source/libkieker/common/utilities/kieker_serialize.c:64-68 | two bytes in network order, the rest unchanged, size 2 |
| Serialize.SerializeInt32 | source/libkieker/common/utilities/kieker_serialize.c:77-81 | four bytes in network order of the low half of the `long`, the rest unchanged, size 4 |
| Serialize.SerializeInt64 | source/libkieker/common/utilities/kieker_serialize.c:90-95 | eight bytes in network order, the rest unchanged, size 8 |
| Interning.IndexOf | source/libkieker/monitoring/controller/kieker_lookup.c:42-47 | the first place of a string, and the end of the table when it is absent |
| Interning.WithString | source/libkieker/monitoring/controller/kieker_lookup.c:42-69 | interning only appends, and adds no other string |
| Interning.IdIsStable | source/libkieker/monitoring/controller/kieker_lookup.c:42-69 | the id of a string never changes while the table grows |
| Interning.WithStringsGrows | source/libkieker/monitoring/controller/kieker_lookup.c:42-69 | over any run the table stays free of duplicates and holds exactly the interned strings |
| Interning.NamingIsInjective | source/libkieker/monitoring/controller/kieker_lookup.c:42-69 | over any run two strings get the same id if and only if they are equal; ids are below the table size; the id given first is the id at the end |
| Lookup.Controller.constructor | source/libkieker/monitoring/controller/kieker_controller.c:91-95 | two distinct 8192-byte buffers and a connection nothing was written to |
| Lookup.Controller.SendString | source/libkieker/monitoring/controller/kieker_controller.c:173-188 | writes exactly the announcement: -1, id, length, characters |
| Lookup.Controller.Send | source/libkieker/monitoring/controller/kieker_controller.c:195-203 | writes the first `length` bytes of the buffer |
| Lookup.StringTable.AddValue | source/libkieker/monitoring/controller/kieker_lookup.c:57-69 | announces the string under the next id and appends it, growing the list when it is full |
| Lookup.StringTable.Grow | source/libkieker/monitoring/controller/kieker_lookup.c:58-61 | growing keeps the table and makes room for 1024 more |
| Lookup.StringTable.FindKeyByString | source/libkieker/monitoring/controller/kieker_lookup.c:42-52 | returns the id of the string; announces and appends it exactly when it is new |
| Lookup.StringTable.SerializeString | source/libkieker/common/utilities/kieker_serialize.c:131-136 | puts the four bytes of the id at the offset, with the announcement already on the socket |
| Wire.PutAllAnnounces | source/libkieker/common/utilities/kieker_serialize.c:131-136 | serializing any fields appends to the socket exactly the announcements of their new strings, in order of first use |
| Wire.PutAllNames | source/libkieker/common/utilities/kieker_serialize.c:131-136 | every string of a serialized record has an id by then |
| Wire.PutAllFills | source/libkieker/common/utilities/kieker_serialize.c:38-95 | the buffer holds the bytes of the fields under the final table: later interning does not change ids already written |
| Wire.FieldsWidth | source/libkieker/common/utilities/kieker_serialize.c:38-136 | the size of a record depends on the kinds of its fields only |
| Wire.FieldRoundTrip | source/libkieker/common/utilities/kieker_serialize.c:38-136 | a field reads back as a reader sees it |
| Wire.RecordRoundTrip | source/libkieker/common/utilities/kieker_serialize.c:38-136 | codec round trip for any schema at any place in the stream: the fields come back and the rest of the stream is left |
| Wire.ViewsExact | source/libkieker/common/utilities/kieker_serialize.c:38-95 | the very values come back if and only if every number is in the range of its field |
| Wire.Int32Exact | source/libkieker/common/utilities/kieker_serialize.c:77-81 | four bytes give back a number if and only if it is in the signed 32-bit range |
| Records.AppendBoolean | source/libkieker/common/record/misc/kieker_metadata_record.c:40 | one byte, position advanced by 1, bytes behind unchanged |
| Records.AppendInt32 | source/libkieker/common/record/misc/kieker_metadata_record.c:39 | four bytes, position advanced by 4, bytes behind unchanged |
| Records.AppendInt64 | source/libkieker/common/record/misc/kieker_metadata_record.c:41 | eight bytes, position advanced by 8, bytes behind unchanged |
| Records.AppendString | source/libkieker/common/record/misc/kieker_metadata_record.c:36 | four bytes of id, position advanced by 4, bytes behind unchanged |
| Records.SerializeExecution | source/libkieker/common/record/controlflow/operation_execution_record.c:33-46 | the eight fields in order, 44 bytes whatever the values, returned position offset + 44, bytes behind unchanged |
| Records.SerializeKieker | source/libkieker/common/record/misc/kieker_metadata_record.c:33-46 | the eight fields in order with a one-byte boolean in the middle, 37 bytes, bytes behind unchanged |
| Records.SerializeTraceMetadata | source/libkieker/common/record/flow/trace/trace_metadata.c:33-44 | the six serialized fields in order, 36 bytes, bytes behind unchanged |
| Records.SerializeOperationEvent | source/libkieker/common/record/flow/trace/operation/before_operation_event.c:33-43 | the five fields in order, 28 bytes, bytes behind unchanged; AfterOperationEvent has the same layout |
| Records.SerializedReadsBack | source/libkieker/common/record/controlflow/operation_execution_record.c:33-46 | any record serialized behind any buffer contents reads back from there, takes the sum of its field widths, and leaves what was before it |
| Records.RecordsReadBack | source/libkieker/common/record/misc/kieker_metadata_record.c:33-46 | the two records one behind the other, 44 and 37 bytes, read back with their own schemas |
| RecordLayout.ExecutionLayout | source/libkieker/common/record/controlflow/operation_execution_record.c:33-46 | by offset, behind any buffer contents: the ids of the operation and the session at 0 and 4, trace id, tin and tout at 8, 16 and 24, the id of the hostname at 32, eoi at 36, ess at 40 |
| RecordLayout.KiekerLayout | source/libkieker/common/record/misc/kieker_metadata_record.c:33-46 | by offset: the ids of version, controller name and hostname at 0, 4 and 8, experiment id at 12, the boolean at 16, time offset at 17, the id of the time unit at 25, number of records at 29 |
| RecordLayout.MetadataLayout | source/libkieker/common/record/flow/trace/trace_metadata.c:33-44 | by offset: trace id at 0, thread id at 8, the ids of session and hostname at 16 and 20, parent trace id at 24, parent order id at 32 |
| RecordLayout.EventLayout | source/libkieker/common/record/flow/trace/operation/before_operation_event.c:33-43 | by offset: timestamp at 0, trace id at 8, order index at 16, the ids of operation and class at 20 and 24 |
| RecordLayout.NumberBytes | source/libkieker/common/utilities/kieker_serialize.c:38-95 | the widths of the number kinds: 1, 1, 2, 4 and 8 bytes |
| RecordLayout.AnnouncementLayout | source/libkieker/monitoring/controller/kieker_controller.c:173-188 | an announcement by offset: -1 as four bytes of 255, the id at 4, the length at 8, the string from 12 on, and it fits the 8192-byte string buffer |
| Decoder.ReadsAnnouncement | source/libkieker/monitoring/controller/kieker_controller.c:173-188 | a reader recognises an announcement by its -1 and gets id, string and the rest of the stream |
| Decoder.ReadsRecord | source/libkieker/monitoring/controller/kieker_controller.c:249-257 | a reader finds the record type by the announced name behind the prefix id and gets timestamp, fields and the rest |
| Decoder.ReadsBatch | source/libkieker/monitoring/controller/kieker_controller.c:173-203 | one send: the announcements of new strings, then the records, whose every string id was announced before |
| Stream.RegisteredTypes | source/libkieker/monitoring/controller/kieker_controller.c:112-125 | the three event type names get the ids 0, 1 and 2 and are announced first |
| NameCodes.NamesSpelled | source/libkieker/monitoring/controller/kieker_controller.c:112-125 | the announced type names and the session are, byte by byte, the codes of the four string literals |
| NameCodes.NamesPlain | source/libkieker/monitoring/controller/kieker_controller.c:112-125 | the four names are ASCII and have no zero byte |
| Stream.RecordWellTyped | source/libkieker/monitoring/probes/kieker_probe_events.h:6-8 | the constants in the record prefixes name the record types whose fields follow |
| Stream.RunDecodes | source/libkieker/monitoring/probes/kieker_probe_plain.c:14-46 | from any state with the types in place, the bytes a run writes decode to its messages |
| Stream.StreamDecodes | source/libkieker/monitoring/probes/kieker_probe_plain.c:14-46 | end to end: from the bytes of a fresh connection alone a reader recovers exactly the announcements and records of any run, in order, and the type ids keep their meaning |
| Stream.EachIdAnnouncedOnce | source/libkieker/monitoring/controller/kieker_lookup.c:42-69 | each id is announced exactly once, in increasing order, each with a string of its own |
| RecordedCalls.CallsRecorded | source/libkieker/monitoring/probes/kieker_probe_events.c:11-51 | end to end: the records a reader decodes are those of the calls in order and no other, metadata first where a call announces a trace; every field and time is given by the call |
| RecordedCalls.OperationRecorded | source/libkieker/monitoring/probes/kieker_probe_events.c:27-51 | end to end: there is one operation record for each call; the k-th has the type of its direction, the prefix time and the event time of the k-th call, the id of the trace its thread then has, the next order index, operation and class |
| RecordedCalls.MetadataRecorded | source/libkieker/monitoring/probes/kieker_probe_events.c:11-25 | end to end: there is one metadata record for each call that announces a trace, with its prefix time, trace id, thread id, "<no-session>", the hostname, -1 and 0 |
| ThreadView.ReadsCall | source/libkieker/monitoring/probes/kieker_probe_plain.c:14-46 | what one probe call adds to what a reader knows of a thread |
| ThreadView.ReadsThread | source/libkieker/monitoring/probes/kieker_probe_plain.c:14-46 | a reader that follows a thread recovers its calls, whatever other threads do |
| ThreadView.UnderLoses | source/libkieker/monitoring/probes/kieker_probe_plain.c:31-46 | the reader that goes by announced trace ids gets fewer calls of a thread that leaves an operation it has not entered |
| ThreadView.ReaderRecoversThread | source/libkieker/monitoring/probes/kieker_probe_plain.c:14-46 | end to end, for any interleaving: the reader that goes by announced trace ids recovers the calls of a thread from the bytes if and only if the thread never leaves an operation it has not entered |
| WireEvidence.SwapStep | source/libkieker/monitoring/probes/kieker_probe_plain.c:31-46 | the records of a probe call do not show which thread made it, unless they include metadata |
| WireEvidence.BytesDoNotTell | source/libkieker/monitoring/probes/kieker_probe_plain.c:14-46 | no reader can do better: for a thread that goes under, another run writes the very same bytes in which that thread makes fewer calls |
| WireEvidence.SameBytesSameCalls | source/libkieker/monitoring/probes/kieker_probe_plain.c:14-46 | of two runs with the same bytes, on whatever hosts, if no thread of the first goes under, both make the same calls on every thread |
| WireEvidence.BytesTellExactly | source/libkieker/monitoring/probes/kieker_probe_plain.c:14-46 | for any run that leaves some `int` unused as a thread id: among all runs the library can make, on any host, its bytes determine the calls of every thread if and only if no thread leaves an operation it has not entered |
| WireEvidence.FewCallsLeaveAnId | source/libkieker/monitoring/controller/kieker_trace.c:26-27 | fewer than 2^32 calls leave a thread id unused |
| CallTree.ParseInvertsMarks | source/libkieker/monitoring/probes/kieker_probe_plain.c:14-46 | the call tree of nested calls is uniquely recoverable |
| CallTree.MarksNeverUnder | source/libkieker/monitoring/probes/kieker_probe_plain.c:14-46 | properly nested calls never leave an operation that was not entered |
| CallTree.ReaderRebuildsCallTrees | source/libkieker/monitoring/probes/kieker_probe_plain.c:14-46 | end to end: a reader of the bytes rebuilds the call trees of every properly nested thread |
| ThreadRun.NumberedWithoutGaps | source/libkieker/monitoring/probes/kieker_probe_plain.c:23-24 | order indices inside a trace run without gaps, all under the trace's id |
| ThreadRun.InsideRun | source/libkieker/monitoring/probes/kieker_probe_plain.c:14-46 | calls nested in an open trace report their tree's events and leave the depth as it was |
| ThreadRun.NestedCallsShape | source/libkieker/monitoring/probes/kieker_probe_plain.c:14-46 | nested calls report, for each top-level call, one metadata record and its tree's events numbered from 0, and leave the thread without a trace |
| ThreadRun.RetiredExactlyAtDepthZero | source/libkieker/monitoring/probes/kieker_probe_plain.c:43-45 | at every point of the calls of a thread that never goes under, it has a trace if and only if it is inside an operation: each trace is retired exactly when the depth returns to zero |
| ThreadRun.OpenTraceCounts | source/libkieker/monitoring/probes/kieker_probe_plain.c:23-24 | for any calls, nested or not: stack and order index of the open trace are the balance and number of the calls since it began |
| ThreadRun.OneTraceEvents | source/libkieker/monitoring/probes/kieker_probe_plain.c:14-46 | any calls that belong to one trace, finished, open or opened by leaving, report metadata unless the first is a leave, and then one operation each, numbered from 0 |
| ThreadRun.MetadataExactlyOnce | source/libkieker/monitoring/probes/kieker_probe_plain.c:19-21 | every trace has its metadata exactly once and before its first event if and only if the thread never leaves an operation it has not entered |
| ThreadRun.LeavingFirstGoesUnannounced | source/libkieker/monitoring/probes/kieker_probe_plain.c:31-46 | the failing input: a leave as the first call opens a trace that never gets metadata |
| NonInterference.IdsAreConsecutive | source/libkieker/monitoring/controller/kieker_trace.c:123-128 | the call that makes the n-th new trace of a run gets the n-th id from the counter's first value; every other call keeps the id its thread has |
| NonInterference.IdsAreDistinct | source/libkieker/monitoring/controller/kieker_trace.c:86-93 | ids of one thread increase and no id belongs to two threads |
| NonInterference.ThreadsDoNotInterfere | source/libkieker/monitoring/probes/kieker_probe_plain.c:14-46 | in any interleaving the events of a thread are those it would report alone, up to the choice of trace ids |
| NonInterference.NestedThreadShape | source/libkieker/monitoring/probes/kieker_probe_plain.c:14-46 | whatever a thread did before and does after properly nested calls, and in any interleaving, it reports for them the traces of their call forest, renamed, between the events of the rest |
| NonInterference.ThreadSplits | source/libkieker/monitoring/probes/kieker_probe_plain.c:14-46 | in any interleaving a thread's events are those of the calls before, during and after any point at which it is idle |
| NonInterference.HasTraceExactlyInside | source/libkieker/monitoring/controller/kieker_trace.c:26-62 | in any interleaving, a thread that never goes under has an entry in the registry if and only if it is inside an operation |
| DecodedTraces.StreamIsRead | source/libkieker/monitoring/probes/kieker_probe_events.c:11-51 | the events a reader finds in the bytes are all events of the run, in the order of the calls |
| DecodedTraces.OneThreadsTrace | source/libkieker/monitoring/controller/kieker_trace.c:86-128 | the events under a trace id are events of the one thread that has or gets the id |
| DecodedTraces.DecodedTraceIsTree | source/libkieker/monitoring/probes/kieker_probe_plain.c:14-46 | end to end: for each finished, properly nested top-level call of any thread, running or not, a reader of the bytes finds, under an id of its own, one metadata record and then the numbered operations of the call's tree |
| DecodedTraces.DecodedTrace | source/libkieker/monitoring/probes/kieker_probe_plain.c:14-46 | end to end, for any trace of any run, finished, open or opened by leaving: its calls are found under an id of its own, numbered from 0, behind one metadata record unless it was opened by leaving |
| DecodedTraces.DecodedOrderIndices | source/libkieker/monitoring/probes/kieker_probe_plain.c:23-24 | end to end, for any run and any id: the operation records a reader finds under the id have order indices 0, 1, 2, ... without gaps, as far as a 32-bit field can tell |
| DecodedTraces.NumberedFrom | source/libkieker/monitoring/probes/kieker_probe_plain.c:23-24 | from any registry, the operations under an id go on from the next order index of the trace that has it |
| NonInterference.SeedFits | source/libkieker/monitoring/controller/kieker_trace.c:103-117 | the seed is a multiple of 256 below 256 * 10^9, and no run of up to 2^62 calls leaves the range of the id field |
| TraceItem.Trace.constructor | source/libkieker/monitoring/controller/kieker_trace.c:86-93 | a new trace has its ids, order index -1 and stack 0 |
| TraceRegistry.KeyIsInjective | source/libkieker/monitoring/controller/kieker_trace.c:69-74 | the key bytes of two 32-bit thread ids differ when the ids do |
| TraceKeys.KeyBytes | source/libkieker/monitoring/controller/kieker_trace.c:69-74 | the key of a thread is its 32-bit id, least significant byte first, negative ids in two's complement |
| TraceKeys.ThreadOneBucket | source/libkieker/monitoring/controller/kieker_trace.c:69-74 | the key of thread 1 is 1, 0, 0, 0; in a fresh table it lies in bucket 5 |
| TraceRegistry.Traces.constructor | source/libkieker/monitoring/controller/kieker_trace.c:103-117 | an empty registry over a table with the Jenkins hash, the counter at the shifted seed |
| TraceRegistry.Traces.Find | source/libkieker/monitoring/controller/kieker_trace.c:69-74 | the trace of the thread, or null when it has none |
| TraceRegistry.Traces.GetNextId | source/libkieker/monitoring/controller/kieker_trace.c:126-128 | returns the counter and advances it by one |
| TraceRegistry.Traces.Get | source/libkieker/monitoring/controller/kieker_trace.c:26-48 | the thread's trace, created and entered when it has none; no other thread's entry changes |
| TraceRegistry.Traces.Enter | source/libkieker/monitoring/controller/kieker_trace.c:37-45 | a trace for a thread without one: next id, entered under the thread id |
| TraceRegistry.Traces.Insert | source/libkieker/monitoring/controller/kieker_trace.c:41-44 | the write section: the trace is entered under its thread id, all other entries unchanged |
| TraceRegistry.Traces.Count | source/libkieker/monitoring/probes/kieker_probe_plain.c:23-24 | counts on the one trace; every other trace is unchanged |
| TraceRegistry.Traces.Remove | source/libkieker/monitoring/controller/kieker_trace.c:53-62 | the registry without the thread's entry, all others unchanged |
| TraceRegistry.Traces.GetToLeave | source/libkieker/monitoring/probes/kieker_probe_plain.c:34-37 | gets the thread's trace and counts it down |
| TraceRegistry.Traces.Retire | source/libkieker/monitoring/probes/kieker_probe_plain.c:43-45 | removes the trace if and only if its stack is zero |
| RegistrySteps.InvKept | source/libkieker/monitoring/controller/kieker_trace.c:26-62 | every lock section, every step between them, and the start and end of threads keep the registry invariant, but for the end of a thread with an entry |
| RegistrySteps.RegistryIsSafe | source/libkieker/monitoring/controller/kieker_trace.c:26-62 | in every run with distinct ids among live threads in which no thread ends with an entry: one entry a key, each thread holds only the trace it made, nothing is freed that another thread holds or the table still lists; ids of ended threads may come back |
| RegistrySteps.SafeExactlyWhenTidy | source/libkieker/monitoring/controller/kieker_trace.c:26-62 | for any run with distinct live ids: the registry stays safe whatever happens next if and only if no thread has ended while it had an entry |
| RegistrySteps.EndingInsideIsUnsafe | source/libkieker/monitoring/controller/kieker_trace.c:26-62 | the failing run: a thread ends inside an operation, another is started with its id and is handed its trace |
| RegistrySteps.OrphanStays | source/libkieker/monitoring/controller/kieker_trace.c:26-62 | the entry of an ended thread stays in the table as long as the registry is safe |
| RegistrySteps.SharedIdIsUnsafe | source/libkieker/monitoring/controller/kieker_trace.c:27 | the failing run: two live threads with the same cast of `pthread_self()` |
| RegistrySteps.SafeExactlyWithDistinctIds | source/libkieker/monitoring/controller/kieker_trace.c:26-62 | whichever threads may be live together: all runs in which none ends with an entry are safe if and only if threads that may be live together have distinct ids |
| RegistrySteps.StepLeavesOthers | source/libkieker/monitoring/controller/kieker_trace.c:26-62 | a step of one thread leaves the others' positions, entries and objects alone |
| RegistryRefinement.FindView | source/libkieker/monitoring/controller/kieker_trace.c:26-35 | the read section changes nothing, finds an entry if and only if the table has one under the thread's id, and what it finds is the thread's own |
| RegistryRefinement.CreateView | source/libkieker/monitoring/controller/kieker_trace.c:86-93 | creating an object takes the next trace id and lists nothing |
| RegistryRefinement.InsertView | source/libkieker/monitoring/controller/kieker_trace.c:41-44 | the write section of kieker_trace_get maps the thread's id to the new trace id |
| RegistryRefinement.UnlinkView | source/libkieker/monitoring/controller/kieker_trace.c:53-59 | the write section of kieker_trace_remove takes the thread's entry out of the table and keeps the object |
| RegistryRefinement.FreeView | source/libkieker/monitoring/controller/kieker_trace.c:60-62 | freeing removes the object, which the table lists no more |
| RegistryRefinement.ReleaseView | source/libkieker/monitoring/probes/kieker_probe_plain.c:43-45 | a call that does not retire its trace leaves the registry as it is |
| RegistryRefinement.StartOrExitView | source/libkieker/monitoring/controller/kieker_trace.c:26-62 | a thread that starts or ends changes its own position only |
| RegistryRefinement.GetRefines | source/libkieker/monitoring/controller/kieker_trace.c:26-48 | run without interruption in any state that fits the invariant, kieker_trace_get gives the table with the thread's entry, the old one or a new one with the next id; the thread holds its own object; entries, objects and positions of others are unchanged |
| RegistryRefinement.RemoveRefines | source/libkieker/monitoring/controller/kieker_trace.c:53-62 | run without interruption, kieker_trace_remove gives the table without the thread's entry, the object live no more, and everything else unchanged |
| RegistryRefinement.GetCanRun | source/libkieker/monitoring/controller/kieker_trace.c:26-48 | kieker_trace_get can be run whenever the thread is outside the registry functions |
| RegistryRefinement.RemoveCanRun | source/libkieker/monitoring/controller/kieker_trace.c:53-62 | kieker_trace_remove can be run whenever the thread holds a trace |
| RegistryRefinement.CallRefines | source/libkieker/monitoring/probes/kieker_probe_plain.c:14-46 | a probe call on the lock sections is that probe call on the registry of the protocol |
| RegistryRefinement.ProgramRefines | source/libkieker/monitoring/probes/kieker_probe_plain.c:14-46 | any sequence of probe calls by any threads on the lock sections leaves the trace ids and the counter of the same sequence on the registry of the protocol |
| RegistryRefinement.ProgramCanRun | source/libkieker/monitoring/probes/kieker_probe_plain.c:14-46 | every sequence of probe calls can be run on the lock sections |
| ProbePlain.PrefixSerialize | source/libkieker/monitoring/controller/kieker_controller.c:249-257 | id and timestamp at the offset, returned position offset + 12 |
| ProbePlain.CreateTraceMetadata | source/libkieker/monitoring/probes/kieker_probe_events.c:11-25 | prefix and metadata record of the trace behind the offset, 48 bytes |
| ProbePlain.CreateOperationEvent | source/libkieker/monitoring/probes/kieker_probe_events.c:27-51 | prefix with the type id of the direction, and the event record of the counted trace, 40 bytes |
| ProbePlain.Announce | source/libkieker/monitoring/probes/kieker_probe_plain.c:19-21 | a metadata record exactly when the trace is new |
| ProbePlain.Report | source/libkieker/monitoring/probes/kieker_probe_plain.c:26-28 | the event behind what the buffer holds; the filled part of the buffer goes to the socket |
| ProbePlain.RegisterEventTypes | source/libkieker/monitoring/controller/kieker_controller.c:112-125 | the type names are announced and in the table, the buffer is dropped |
| ProbePlain.Library.constructor | source/libkieker/monitoring/controller/kieker_controller.c:91-125 | a fresh connection: the start state of the protocol |
| ProbePlain.Library.Begin | source/libkieker/monitoring/probes/kieker_probe_plain.c:14-21 | the probe up to the counting |
| ProbePlain.Library.BeforeOperation | source/libkieker/monitoring/probes/kieker_probe_plain.c:14-29 | over the hash table, the string list and the real buffers, the probe makes exactly one step of the protocol |
| ProbePlain.Library.AfterOperation | source/libkieker/monitoring/probes/kieker_probe_plain.c:31-46 | the same for the probe on leaving, which retires the trace at depth zero |
| ProbePlain.RunProgram | source/libkieker/monitoring/probes/kieker_probe_plain.c:14-46 | the bytes a whole program of serialised probe calls writes are those of the protocol run, so that every end-to-end result is about them |
| AdaptiveHash.Hash | source/libkieker/monitoring/controller/kieker_adaptive_monitoring.c:118-128 | the loop computes the hash of the name for every string |
| AdaptiveHash.HashIsPolynomial | source/libkieker/monitoring/controller/kieker_adaptive_monitoring.c:118-128 | the hash is hash * 33^n + sum of s[i] * 33^(n-1-i) modulo 2^64 |
| AdaptiveHash.HashOfConcatenation | source/libkieker/monitoring/controller/kieker_adaptive_monitoring.c:118-128 | hash(s + t) == hash(s) * 33^length(t) + poly(t) modulo 2^64 |
| AdaptiveHash.KnownNameHash | source/libkieker/monitoring/controller/kieker_adaptive_monitoring.c:118-128 | "java.lang.Object" hashes to 9953754338162643068, in the course of which the register wraps around |
| Adaptive.Qsort | source/libkieker/monitoring/controller/kieker_adaptive_monitoring.c:91 | the sorted permutation, the rest of the array unchanged |
| Adaptive.Bsearch | source/libkieker/monitoring/controller/kieker_adaptive_monitoring.c:109-110 | whatever it finds is in the array; on a sorted one it finds the key if and only if it is there |
| Adaptive.Filter.Load | source/libkieker/monitoring/controller/kieker_adaptive_monitoring.c:35-103 | returns 0 if and only if the header is right, at most 200 names are accepted and all their hashes differ, else the code of the first failure; then the filter knows exactly the hashes of the accepted names; on a failed header nothing changes; the loader stays inside the array if and only if at most 200 names are accepted |
| Adaptive.Filter.Store | source/libkieker/monitoring/controller/kieker_adaptive_monitoring.c:66-82 | the hashes of the accepted names in order; with more than 200 the 201st goes into the word behind the array before the loop gives up |
| Adaptive.Filter.NeighboursEqual | source/libkieker/monitoring/controller/kieker_adaptive_monitoring.c:93-100 | the scan of neighbours finds a duplicate if and only if there is one anywhere |
| Adaptive.Filter.IsClassExcluded | source/libkieker/monitoring/controller/kieker_adaptive_monitoring.c:108-113 | on a loaded filter, membership of the hash in EXCLUDE mode and its complement in INCLUDE mode; in any state, an answer that rests on a match rests on a known hash |
| AdaptiveHash.RegistersStayDifferent | source/libkieker/monitoring/controller/kieker_adaptive_monitoring.c:123-126 | two different registers stay different whatever characters follow |
| AdaptiveHash.PrefixAndSuffixCancel | source/libkieker/monitoring/controller/kieker_adaptive_monitoring.c:118-128 | a common beginning and a common end of two names do not matter to whether they collide |
| AdaptiveHash.SameLengthCollideExactly | source/libkieker/monitoring/controller/kieker_adaptive_monitoring.c:118-128 | names that differ in a stretch of equal length collide if and only if 2^64 divides the difference of the stretches' polynomials, and up to twelve characters if and only if the polynomials are equal |
| AdaptiveHash.OneByteApart | source/libkieker/monitoring/controller/kieker_adaptive_monitoring.c:118-128 | names that differ in exactly one character never collide, at any length |
| AdaptiveHash.CloseNamesDiffer | source/libkieker/monitoring/controller/kieker_adaptive_monitoring.c:118-128 | names that differ in up to twelve characters, each by less than 33, never collide |
| AdaptiveHash.CollideExactly | source/libkieker/monitoring/controller/kieker_adaptive_monitoring.c:118-128 | two names collide if and only if 2^64 divides the difference of 5381 * 33^n plus polynomial |
| AdaptiveHash.HashIsOnto | source/libkieker/monitoring/controller/kieker_adaptive_monitoring.c:118-128 | from any register every value is reached by a string of any length from thirteen on |
| Adaptive.Filter.AnswersByName | source/libkieker/monitoring/controller/kieker_adaptive_monitoring.c:108-113 | in both modes: the answer about a class is the answer for its name if and only if the class is listed or 2^64 divides no difference of its weight and a listed name's |
| Adaptive.Filter.CloseNamesByName | source/libkieker/monitoring/controller/kieker_adaptive_monitoring.c:108-113 | lists of names that agree with the class but for up to twelve close characters are answered by name |
| Adaptive.Filter.ByNameForAllExactlyWhenEmpty | source/libkieker/monitoring/controller/kieker_adaptive_monitoring.c:108-113 | in both modes: all classes are answered by name if and only if the list is empty, since any other list is confused with some class not on it |
| Adaptive.LoadsExactly | source/libkieker/monitoring/controller/kieker_adaptive_monitoring.c:67-103 | a right header leads to success if and only if at most 200 names are accepted and 2^64 divides no difference of the weights of two of them |
| Adaptive.LoadCodes | source/libkieker/monitoring/controller/kieker_adaptive_monitoring.c:39-103 | each answer with its exact cause: -1 no file, -2 no first line, -3 a wrong first line, -4 more than 200 names, -5 two names of one hash, 0 otherwise |
| Adaptive.AcceptedLine | source/libkieker/monitoring/controller/kieker_adaptive_monitoring.c:67-70 | a further line adds a name if and only if it is not empty and does not start with the character # |
| Adaptive.TooManyNamesOverrun | source/libkieker/monitoring/controller/kieker_adaptive_monitoring.c:74-80 | the failing input: 201 lines of two letters |
| Adaptive.NamesCollide | source/libkieker/monitoring/controller/kieker_adaptive_monitoring.c:93-128 | the failing input: "Ab" and "BA" share a hash |

## Left out

- Adaptive.Filter.Load: starts from the verdict on opening the file and on its first line, and from the trimmed lines; file reading, `getline` and the string trimming are not modelled.
- Adaptive.Filter.Store: after more than 200 names nothing is promised about mode, size and hashes, since the word behind the array, which is overwritten then, may be one of the filter's own variables; the model shows it as `behind`.
- Adaptive.Qsort: stands for the C library's sort, by the merge sort of module `MergeSort`; the program relies only on the sorted permutation.
- Adaptive.Bsearch: stands for the C library's binary search.
- Adaptive.Filter.IsClassExcluded: promises no more than a known hash when the counted hashes are not sorted, as after a load that failed for space while an earlier list is still counted.
- Jenkins.Jen: key lengths are unbounded; the macro keeps the length in 32 bits, so that keys of 4 GiB and more are hashed differently.
- UtHash.Hash.Add: adds fresh keys, as its callers do after a find; with a key that is present the macro chains a second item under it.
- UtHashSort.Sort: the comparator reads the fields of the two items but not their list and chain links, which change during the sort.
- TraceRegistry.Traces.Insert: enters a thread that has no entry, as `kieker_trace_get` does after its search; the insertion of a second entry under a key is a step of `RegistrySteps`.
- UtHashFsck.Fsck: is run on tables whose chains and order end, however broken they are otherwise; with a cycle the traversals do not end. A failed check ends the program; here it goes on and answers false.
- TraceRegistry.Traces.Remove: the 1024-byte `buffer` of a trace, allocated and freed but never used, is not modelled.
- Each handle's pointer to its table, pointer arithmetic between items and handles (`hho`), and the signature: one `Hash` object stands for the table.
- Allocation failure, and 32-bit wrap-around of bucket counts, item counts and the string table's counters.
- Order indices and trace ids are unbounded in memory; their truncation is modelled where they are written.
- HASH_SELECT, HASH_CLEAR, the Bloom filter and the other hash functions: the library does not use them.
- Sockets, `connect`, host names, `fsync`, environment variables, `dladdr1`, and the library's life cycle; reconnecting after `kieker_controller_finalize` neither resets nor announces the string table again.
- Error returns of `write` and of the lock functions, which only report.
- Float and double serializers: the first writes host order, the second converts through an integer.
- `kieker_lookup_create`: reads a file of strings, is not called, and does not look for duplicates.
- The other record serializers and probes, which have the same shape as those modelled, and the example programs.
