# Pebbis in Dafny

Pebbis is a Redis-like store over one ordered key/value engine. Several structures are
derived from that engine and have to agree with it: element keys and two indexes of
collections, a time-ordered expiry index, an in-memory cache, counters folded by a merge
operator, the log and delivery records of streams. This project models those parts down to
the stored bytes and proves what holds over whole runs.

The engine is a finite map from byte strings to byte strings with atomic batches, prefix
ranges and iterators in byte order. User keys, values, scores and ids are the source's own
encodings in it. Where the source mutates an object the model is a class; where it loops
the model is a method with a loop, proved against a function or predicate over values.

| files | what they model |
|---|---|
| `Bytes`, `Scores`, `Layout`, `Codec`, `Decimal` | byte order, float patterns, every key and value encoding |
| `Engine`, `Records`, `DataPath` | batches, ranges and frames; the invariant of record, expiry index and cache; the data path |
| `Merge`, `Strings`, `Expiry`, `Session`, `StringLaws` | the counter merge operator; string and expiry commands; expiry cycles and startup; whole runs; what the commands mean to a client |
| `Collections`, `Aggregates`, `Hashes`, `ZSets`, `Sequences`, `Lists`, `Keyspace` | inline and sparse collections, promotion, demotion and diffs; their commands; whole runs |
| `Streams`, `Groups`, `Delivery` | the stream log; the delivery protocol over single writes; its engine writes |
| `Locks`, `Blocker` | ordered shard locking and blocking wake-up, for any number of threads |
| `Glob`, `Patterns`, `Lcs`, `Scan` | the glob matcher and what written patterns mean, longest common subsequence, SCAN cursors |
| `Memory`, `Caching`, `Eviction` | the sharded index with its accounting, its refinement of the data path's cache, and eviction |

The engine map shows every key as reads see it; beside it the store keeps the unfolded merge
records of counters, which increments append to and compactions fold.

`dafny verify dfyconfig.toml` checks everything.

Where the code does not keep a promise its comments make, the code is modelled as it is, a
lemma shows the input, and the exact condition is proved: in-place counts of repeated
elements (`Hashes.HSetExactly`, `Hashes.SAddExactly`, `ZSets.ZCountExactly`), stale
score-index keys (`ZSets.InPlaceExactly`), left pushes on sparse lists
(`Lists.PushLeftThenRange`), inline names of 65536 bytes (`Codec.HashInlineRoundTrip`), zero
bytes in user keys (`Layout.RangeInterference`), increments past 2^53 and near 2^63
(`Merge.CompactKeeps`, `Strings.LateOverflowExactly`), increments over hashes, lists and
strings that are no numbers (`Merge.NonStringBase`, `Merge.NonNumericBase`), stream names
that continue with 0x01 (`Streams.LastRangeExactly`), ids of the last millisecond
(`Streams.WindowExactly`), deletions that let a group lose entries
(`Groups.RemovalExactly`), acknowledgements and claims that a read undoes
(`Groups.AckExactly`, `Groups.ClaimExactly`), a blocking read that takes the version too late
(`Blocker.NeverLost`), escaped stars (`Glob.AgreesExactly`), blocks shorter than the minimum
match (`Lcs.Compute`), and renames between shards (`Memory.MovedListsExactly`).

The comments of `glob/glob.go` call a backslash an escape and those of `storage/pebble.go`
call the range of `LastInRange` inclusive at both ends; the model follows the code in both
places.

## Model

| member | source | states |
|---|---|---|
| `Bytes.PrefixEnd` | storage/pebble.go:338-348 | the in-place buffer loop returns the successor of a prefix, and none for a prefix of 0xff bytes |
| `Bytes.PrefixRange` | storage/pebble.go:338-348 | for every prefix and key: the key lies between the prefix and that bound if and only if it starts with the prefix |
| `Bytes.LessIsNumeric` | storage/codec.go:79-85 | byte order of equally long big-endian numbers is numeric order |
| `Bytes.EncodeDecode` | storage/codec.go:99-107 | re-encoding the number read from any bytes gives the bytes back |
| `Layout.ExpireRoundTrip` | storage/codec.go:73-107 | decoding an expire key gives back its time, database and user key, for every time and key |
| `Layout.ExpireDecodeEncode` | storage/codec.go:99-107 | every long enough key of the expire segment is the encoding of what it decodes to |
| `Layout.ExpireKeysByTime` | storage/codec.go:79-85 | expire keys sort by signed expiry time whatever the database and user key |
| `Layout.RangeIsCollection` | storage/object.go:271-333 | for user keys without a zero byte, an element, sequence or score key lies in a collection's scan or delete range if and only if segment, database and user key are the same |
| `Layout.RangeInterference` | storage/object.go:271-304 | for arbitrary user keys: two collections of a segment share a range if and only if one key closed by its separator starts the other |
| `Layout.NulKeysCollide` | storage/object.go:271-283 | two user keys with a zero byte in one of them that own the same element key |
| `Scores.ScoreBijection` | storage/codec.go:136-152 | encoding and decoding scores undo each other on all 64-bit patterns |
| `Scores.ScoreOrder` | storage/codec.go:136-142 | the unsigned order of encoded scores is the order of the real numbers the patterns stand for (IEEE 754-2008, section 5.10), minus zero before zero, NaN excluded |
| `Scores.ScoreEquality` | storage/codec.go:136-142 | equal numbers have equal encodings, except the two zeros, which are the only two patterns of one number |
| `Scores.FloatCompares` | cmd_zset.go:85-92 | the pattern comparisons used by ZADD are the comparisons of the numbers behind the patterns |
| `Scores.TimeOrder` | storage/codec.go:156-163 | the time encoding is order preserving on all of int64 and is undone by its inverse |
| `Codec.ValueRoundTrip` | storage/codec.go:110-132 | decoding an encoded value gives back type, expiry and payload, for every record |
| `Codec.ValueDecodeEncode` | storage/codec.go:118-132 | every value that decodes is the encoding of the result |
| `Codec.DecodeHashInline` | storage/object.go:115-141 | the index loop decodes exactly the grammar of the inline hash body, failing on exactly the malformed bodies |
| `Codec.EncodeHashInline` | storage/object.go:100-112 | the buffer loop writes the header, the count and the pairs in order |
| `Codec.HashInlineRoundTrip` | storage/object.go:100-141 | an inline hash survives the round trip if and only if all field names are shorter than 65536 bytes and all values shorter than 2^32 |
| `Codec.DecodeListInline` | storage/object.go:158-174 | the loop decodes the list grammar or fails |
| `Codec.EncodeListInline` | storage/object.go:146-155 | the buffer loop writes the elements in order |
| `Codec.ListInlineRoundTrip` | storage/object.go:146-174 | an inline list survives if and only if its elements are shorter than 2^32 bytes |
| `Codec.DecodeSetInline` | storage/object.go:191-207 | the loop decodes the set grammar or fails |
| `Codec.EncodeSetInline` | storage/object.go:179-188 | the buffer loop writes the members in order |
| `Codec.SetInlineRoundTrip` | storage/object.go:179-207 | an inline set survives if and only if its members are shorter than 65536 bytes |
| `Codec.DecodeZSetInline` | storage/object.go:225-243 | the loop decodes the sorted-set grammar or fails |
| `Codec.EncodeZSetInline` | storage/object.go:212-222 | the buffer loop writes scores and members in order |
| `Codec.ZSetInlineRoundTrip` | storage/object.go:212-243 | an inline sorted set survives if and only if its members are shorter than 65536 bytes |
| `Codec.SparseHeaderRoundTrip` | storage/object.go:60-95 | a sparse header gives back count, head and tail for counts below 2^32 |
| `Codec.DecodeStreamFields` | stream.go:174-201 | the loop decodes the stream-field grammar or fails |
| `Codec.StreamFieldsRoundTrip` | stream.go:162-201 | stream fields survive if and only if there are fewer than 65536 of them, names are shorter than 65536 bytes and values shorter than 2^32 |
| `Decimal.NumberRoundTrip` | storage/merge.go:178-197 | parsing a formatted integer gives the integer back, for all integers |
| `Decimal.ParsesExactly` | option.go:193-199 | a number is read exactly from digits after at most one sign |
| `Decimal.ParseAppend` | option.go:193-199 | one more digit character makes ten times the number plus the digit |
| `Decimal.ParseSign` | option.go:193-199 | a minus in front negates, a plus changes nothing |
| `Decimal.FormatSign` | storage/merge.go:178-197 | a negative number is its absolute value's text behind a minus |
| `Decimal.FormatDigits` | storage/merge.go:178-197 | the i-th character of a number's text is the digit of its power of ten, the most significant first and not a zero |
| `Merge.Merger.Fold` | storage/merge.go:108-151 | folding an operand into the running value takes the state to the specified next state: integer strings and integer deltas add up, an unreadable operand is skipped, the expiry of a stored value is kept |
| `Merge.EncodedShare` | storage/merge.go:153-197 | the value a merger finishes with reads back as a countable record whose number is the running sum rounded to a double, with its expiry |
| `Merge.FoldedOnce` | storage/merge.go:59-161 | materialising is idempotent: a lone materialised value folds to itself |
| `Merge.RunMerger` | storage/merge.go:59-94 | one merger run over operands in the order delivered computes the value of that group, including the pass-through of values that are no counters |
| `Merge.GroupValue` | storage/merge.go:59-161 | a group of countable operands folds to one value in whatever order it is delivered |
| `Merge.RoundKeeps` | storage/merge.go:178-197 | rounding to a double gives an integer up to 2^53 times a power of two, and keeps exactly those integers |
| `Merge.RoundingFits` | storage/merge.go:178-197 | an integer rounds to an int64 if and only if it lies between -2^63 - 1024 and 2^63 - 513 |
| `Merge.MaterialisedExactly` | storage/merge.go:178-197 | a materialised sum keeps its number if and only if that number is one up to 2^53 times a power of two |
| `Merge.CompactKeeps` | storage/merge.go:59-161 | replacing any contiguous group, delivered in any order, by its materialised value keeps the expiry and changes the total by exactly the group's rounding error; the total stays if and only if the group's sum is a double |
| `Merge.RunKeepsTotal` | storage/merge.go:59-161 | over every run of increments and compactions whose materialised sums are doubles the total grows by exactly the increments |
| `Merge.MergeIndependence` | storage/merge.go:59-197 | for an absent, empty or integer-string base, any increments, any history of partial merges whose values are doubles and any delivery order: the counter reads as the double nearest to base plus all increments with the base's expiry, and as that sum itself if and only if it is a double |
| `Merge.GroupingShowsPast2To53` | storage/merge.go:178-197 | beyond 2^53 two groupings of the same operands give different values |
| `Merge.RoundingLeavesInt64` | storage/merge.go:178-197 | rounding an int64 through a double leaves int64 exactly for the last 512 values |
| `Merge.NonStringBase` | storage/merge.go:59-94 | a non-string value under an increment is kept if and only if its type tag is not an operand tag, which those of hash and list are; delivered after the increment it is always lost |
| `Merge.NonNumericBase` | storage/merge.go:80-144 | a string that is no number under an increment is kept when delivered first and replaced by the increment alone when delivered second; its expiry survives both ways |
| `Records.PutKeepsExact` | data.go:213-239 | writing a record with its index entry moved keeps the expire segment exact for that key |
| `Records.DropKeepsExact` | data.go:284-297 | dropping a record with its index entry keeps the expire segment exact for that key |
| `DataPath.SettledInvisible` | data.go:20-77 | the lazy removal of an expired record during a read changes no live record of any key |
| `DataPath.Store.constructor` | store.go:220-270 | opening over any engine with an exact index starts with an empty cache and the invariant |
| `DataPath.Store.GetTyped` | data.go:20-77 | a read returns exactly the live engine record (type, expiry, payload) or absence, as if there were no cache |
| `DataPath.Store.Lookup` | memory/dict.go:139-154 | a cached entry is returned unless it has expired, in which case it is dropped |
| `DataPath.Store.SetCounter` | memory/dict.go:160-180 | flagging an entry as a counter keeps cache and engine in agreement although its inline value may be stale |
| `DataPath.Store.Evict` | memory/evict.go:114-129 | forgetting any entries keeps cache and engine in agreement |
| `DataPath.Store.OldExpiry` | data.go:117-131 | the expiry a write must unindex is the stored one, whether the cache has the key or not |
| `DataPath.Store.PutValue` | data.go:213-239 | value, index and cache agree after one atomic batch, and no other key changes |
| `DataPath.Store.DeleteExpired` | data.go:284-297 | record and index entry go in one batch, the cache entry before them |
| `DataPath.Store.DropElems` | aggregate.go:498-505 | range deletes remove all elements of the type and nothing else |
| `DataPath.Store.DeleteKey` | data.go:251-276 | an existing key loses record, index entry, cache entry and the elements of its type; the reply tells whether it was live |
| `Strings.SetString` | data.go:136-186 | SET with NX, XX, GET, KEEPTTL and expiry: live record and reply are those of the cache-free outcome, no other key changes |
| `Strings.SetExpiry` | data.go:345-386 | EXPIRE with NX, XX, GT, LT: live record and reply are those of the cache-free outcome, a time not in the future deletes |
| `Strings.Persist` | data.go:389-401 | PERSIST drops the expiry from record, index and cache and nothing else |
| `Strings.Delete` | data.go:244-276 | DEL leaves no live record and reports whether there was one |
| `StringLaws.SetRefused` | data.go:136-158 | a SET is refused, and changes nothing, if and only if it is NX on a live key, XX on a missing one, or GET on another type, each with its own reply |
| `StringLaws.SetWritten` | data.go:160-185 | a SET that reports written is followed by a read of its value, until the time given or under KEEPTTL the time the key had, or of nothing when that time is past; its reply has the value the read before showed |
| `StringLaws.NxExactly` | data.go:153-155 | SET NX leaves everything as it was if and only if the key was live |
| `StringLaws.FirstNxStays` | data.go:153-155 | of two SET NX on a missing key the first value stays |
| `StringLaws.XxExactly` | data.go:156-158 | SET XX never adds a key, and replaces a live one's value |
| `StringLaws.SetLasts` | data.go:20-77 | a value set with a time is read until that time and not from it on |
| `StringLaws.MSetShows` | cmd_string.go:175-206 | MSET leaves a key with the last value given to it and no time |
| `StringLaws.MSetOthers` | cmd_string.go:175-206 | and a key it does not name as it was |
| `StringLaws.ExpireExactly` | data.go:345-373 | EXPIRE applies if and only if the key is live and NX, XX, GT and LT admit the time it has, no time being later than any; otherwise nothing changes |
| `StringLaws.ExpireLeaves` | data.go:375-386 | an EXPIRE that applies leaves the value with the new time, or nothing when that is not ahead |
| `StringLaws.PersistExactly` | data.go:389-401 | PERSIST applies if and only if a live key has a time, and the value then stays whatever time it is |
| `StringLaws.DelExactly` | data.go:244-276 | DEL answers whether the key was live, and nothing is read afterwards |
| `StringLaws.IncrAdds` | cmd_string.go:305-344 | INCR answers the sum of the number the text spells and the increment, leaves the text of it, and keeps the time |
| `StringLaws.IncrRefuses` | cmd_string.go:305-321 | INCR on another type, on text that is no int64 or past int64 changes nothing and says which |
| `StringLaws.IncrTwice` | cmd_string.go:305-344 | two increments are one by their sum |
| `StringLaws.TwelveAndOne` | cmd_string.go:305-344 | SET 12 and INCR answer 13 |
| `StringLaws.OtherKeys` | data.go:136-401 | a command on one key changes what is read of no other |
| `Strings.IncrBy` | cmd_string.go:305-344 | INCR appends an operand to the key's unfolded records: the live record is the unrounded total plus the increment, rounded to a double, with the expiry kept; the reply is that number, or the right error with the record unchanged; after a late overflow a cached value is stale |
| `Strings.ReadBase` | cmd_string.go:305-321 | the value an increment reads is the total of the unfolded records, rounded or itself |
| `Strings.IncrExact` | cmd_string.go:305-344 | while the new total is within 2^53 the result is the promised exact addition |
| `Strings.LateOverflowExactly` | cmd_string.go:322-336 | whatever operands are pending, the reply is an overflow error although the counter was changed if and only if the unrounded total plus the increment is at least 2^63 - 512 |
| `Strings.StackedOverflow` | cmd_string.go:322-336 | two increments by 400 over 2^63 - 1024: the second reads 2^63 - 1024 and overflows late |
| `Strings.CompactLog` | storage/merge.go:59-161 | a compaction of any group of a key's records shows nothing if and only if old and new total round to the same double; a group whose sum is a double keeps even the total |
| `Strings.MSetPairs` | cmd_string.go:175-206 | after MSET every named key holds its last value without expiry, index and cache agree, and no other key changes |
| `Session.TameGroup` | storage/merge.go:59-197 | while a counter stays within 2^52 every group of its unfolded records sums to a double |
| `Session.FoldLosesAbove` | storage/merge.go:178-197 | above that a compaction can change a counter: SET to -2^53 and INCRBY 2^53 + 1 reads 1, and 0 once the operand is folded alone |
| `Session.Execute` | data.go:20-77 | one command of the string and expiry family, a read, an eviction, an expiry cycle, a clock advance, a restart or a compaction answers as the map without cache |
| `Session.Run` | data.go:20-77 | cache transparency: over every run of SET, MSET, EXPIRE, PERSIST, DEL, INCR, reads, clock advances, evictions, expiry cycles, restarts and compactions of any group of counter records in any order, all replies and the final live records are those of a plain map from keys to records; counters stay within 2^53, or 2^52 with compactions |
| `Expiry.Cycle` | memory/expire.go:66-112 | a cycle removes only due keys, always a time-ordered prefix of them, at most its limit, all of them when it stops short of the limit; everything else and all element keys stay |
| `Expiry.ReapAll` | memory/expire.go:45-112 | repeated cycles at a fixed time end and leave no due record |
| `Expiry.SegmentExactly` | data.go:213-239 | in every state the store keeps, the expire segment holds exactly the pairs of expiry and key of the stored records that have an expiry |
| `Expiry.GoneKeepsLive` | memory/expire.go:66-112 | removing due records changes no live record |
| `Expiry.LoadDb` | store.go:274-310 | the startup scan of one database admits its live records and stages the removal of its due ones |
| `Expiry.LoadAll` | store.go:274-310 | after startup the cache holds exactly the live keys, every stored record is live, and no element key changed |
| `Collections.DoubleIndex` | storage/object.go:315-358 | for every key, score and member: the score key exists if and only if the member key exists with that score; while the key is inline, absent or no sorted set there is no score key |
| `Collections.IndexSet` | cmd_zset.go:155-170 | the score index of a set with one score changed is the old index without the old key and with the new one |
| `Aggregates.LoadAgg` | aggregate.go:47-104 | whatever form a collection is stored in, loading returns exactly it; a missing key loads empty, another type is refused, and the live record is untouched |
| `Aggregates.AggEncoding` | aggregate.go:110-123 | the header tells the form without loading; a sparse answer means exactly the collection's element keys are there |
| `Aggregates.ScanHash` | aggregate.go:129-139 | the prefix scan rebuilds exactly the stored fields |
| `Aggregates.ScanSet` | aggregate.go:141-151 | the prefix scan rebuilds exactly the stored members |
| `Aggregates.ScanZSet` | aggregate.go:153-170 | the prefix scan rebuilds exactly the stored scores, skipping values too short to be one |
| `Aggregates.CheckFitsInline` | aggregate.go:269-297 | the test that decides the form: at most 128 entries and, for hashes, no value over 64 bytes |
| `Aggregates.EncodeInline` | aggregate.go:299-322 | the inline payload decodes to the collection |
| `Aggregates.WriteElems` | aggregate.go:380-422 | promotion stages exactly the element keys of the collection |
| `Aggregates.DiffElems` | aggregate.go:426-495 | from the element keys of the loaded snapshot, the staged difference leaves exactly those of the new collection |
| `Aggregates.DiffScores` | aggregate.go:461-488 | a moved score loses its old index key and gains the new one, so both indexes stay exact |
| `Aggregates.SaveAgg` | aggregate.go:203-266 | whatever form a key had and will have, saving leaves it holding exactly the given collection, with an exact header count, and touches no other key |
| `Hashes.StageFields` | cmd_hash.go:63-79 | the in-place loop stages what field-by-field writes judged against the engine leave, and counts the fields the engine misses |
| `Hashes.CountExactly` | cmd_hash.go:56-95 | for any names: the number of given names the engine misses is at least the growth of the collection, and equal to it if and only if no new name is given twice |
| `Hashes.HashSetSparse` | cmd_hash.go:56-95 | the in-place path, for any pairs, leaves the hash of writes judged against the engine; reply and header increase are the number of given fields the engine misses, the header in 32 bits |
| `Hashes.HashSet` | cmd_hash.go:24-53 | HSET and HSETNX over both forms: loaded, the plain hash with all pairs put in order and its growth as reply; in place, what the engine-judged writes leave and the misses as reply; header count stated for both |
| `Hashes.HSetExactly` | cmd_hash.go:24-95 | contents and reply are the plain ones if and only if the hash is not sparse or no new field is given twice |
| `Hashes.HSetLast` | cmd_hash.go:24-53 | HSET leaves a field with the last value given to it |
| `Hashes.HSetNX` | cmd_hash.go:24-53 | HSETNX leaves a field that was there with its value and a new one with the first given |
| `Hashes.HashDel` | cmd_hash.go:109-132 | HDEL leaves the plain hash without the fields, or no key at all when none is left, and replies the number removed |
| `Hashes.SetAddSparse` | cmd_set.go:49-85 | the in-place path leaves the union; reply and header increase are the number of given members the engine misses |
| `Hashes.SetAdd` | cmd_set.go:22-46 | SADD over both forms leaves the union; the reply is its growth when loaded and the misses in place; header count stated for both |
| `Hashes.SAddExactly` | cmd_set.go:22-85 | the reply is the plain one if and only if the set is not sparse or no new member is given twice |
| `Hashes.SetRem` | cmd_set.go:87-113 | SREM leaves the difference, or no key when it is empty, and replies the number removed |
| `Hashes.DeleteAny` | data.go:251-276 | deleting any key leaves neither record nor element keys |
| `ZSets.StageScores` | cmd_zset.go:126-165 | the in-place loop, for any members and scores, stages the overwritten member index, the score index it leaves, and the two counts |
| `ZSets.IndexRunExactly` | cmd_zset.go:126-165 | for any list of accepted members with scores that are numbers: the score index agrees with the member index if and only if every accepted score is the last given for its member or the stored one, and no member moves between the two zeros |
| `ZSets.IndexCanGoStale` | cmd_zset.go:155-165 | minus zero over a stored zero, and a new member named twice, leave a stale index key |
| `ZSets.TakenIsPut` | cmd_zset.go:119-186 | with distinct members the in-place path is ZADD member by member |
| `ZSets.ZAddSparse` | cmd_zset.go:119-186 | the in-place path, for any members and scores: the member index gets the last accepted scores, the score index is that of the run, the header goes up by the accepted members the engine misses, and the reply is that number or, with CH, those that are missing or move |
| `ZSets.InPlaceExactly` | cmd_zset.go:119-186 | that is the scored set with both indexes exact if and only if the run is tidy, where no member ends at minus zero; for those `ZSets.IndexRunExactly` states the same of the indexes |
| `ZSets.ZCountExactly` | cmd_zset.go:126-186 | the header count grows by as much as the set if and only if no new member is accepted twice |
| `ZSets.PutScores` | cmd_zset.go:70-103 | the loop applies NX, XX, GT and LT member by member and counts additions and changes |
| `ZSets.ZAddKeys` | cmd_zset.go:72-79 | ZADD takes no member out, adds none under XX and every given one otherwise |
| `ZSets.ZAddNX` | cmd_zset.go:74-76 | under NX a stored member keeps its score |
| `ZSets.ZAddNew` | cmd_zset.go:74-79 | and a new one gets the first given |
| `ZSets.ZAddLast` | cmd_zset.go:72-103 | without NX, GT and LT the last score given to a member stays |
| `ZSets.ZAddGT` | cmd_zset.go:86-89 | under GT, for any list of members, a member ends at the greatest, as a number, of its stored score and all it was given |
| `ZSets.ZAddLT` | cmd_zset.go:90-92 | under LT at the least of them |
| `ZSets.ZAddBoth` | cmd_zset.go:86-92 | under both every stored member keeps its score |
| `ZSets.ZChangedIs` | cmd_zset.go:94-113 | with distinct members the CH reply is the number of members that are new or have another number |
| `ZSets.IncrScore` | cmd_zset.go:70-112 | under INCR the loop ends at the first member no option skips, with its sum or the NaN refusal |
| `ZSets.ZIncrOne` | cmd_zset.go:70-112 | ZADD INCR with one member: skipped by NX, XX, or a sum that GT or LT does not admit as a number, refused when the sum is NaN, else the member is at its stored score plus the increment |
| `ZSets.ZIncrFirst` | cmd_zset.go:70-112 | with several members the first that is not skipped decides |
| `ZSets.ZAdd` | cmd_zset.go:51-116 | ZADD with NX, XX, GT, LT, CH and INCR over both forms: in place what the in-place path leaves for any members; loaded the plain outcome and reply; with every member skipped on a missing key it stores an empty set, as the code does |
| `ZSets.ZAddPlain` | cmd_zset.go:51-186 | for distinct members and scores other than minus zero ZADD leaves the plain scored set with the plain reply and an exact header in either form |
| `ZSets.ZRem` | cmd_zset.go:200-226 | ZREM leaves the plain set without the members, or no key when none is left, and replies the number removed |
| `Sequences.ScanVisits` | aggregate.go:172-192 | an iterator over a sparse list meets exactly its numbers, non-negative ones first |
| `Sequences.RotationExactly` | aggregate.go:172-192 | a sequence equals its rotation by m if and only if it repeats its first elements, as many as the greatest common divisor of the two parts' lengths |
| `Sequences.ReadsInOrder` | storage/object.go:286-294 | a sparse list reads in stored order if and only if its numbers do not straddle zero or it repeats with the greatest common divisor of the sizes of the two sides |
| `Sequences.DifferentInOrder` | storage/object.go:286-294 | a sparse list of distinct elements reads in stored order if and only if its numbers do not straddle zero |
| `Lists.ScanList` | aggregate.go:172-192 | a sparse list reads as stored, with any part under negative numbers moved to the end |
| `Lists.LoadList` | aggregate.go:93-102 | loading a list returns exactly the plain sequence in either form, with its numbers |
| `Lists.CheckListFits` | aggregate.go:284-294 | the inline test for lists |
| `Lists.SaveList` | aggregate.go:203-266 | saving a list leaves the plain sequence, inline when it fits, else promoted from number 0 on |
| `Lists.PushRight` | cmd_list.go:24-60 | RPUSH and RPUSHX over both forms append, reply the new length, and leave a missing key alone under X |
| `Lists.PushRightSparse` | cmd_list.go:62-102 | the sparse push writes the next numbers, promoting first when the list is inline |
| `Lists.PushLeft` | cmd_list.go:34-102 | LPUSH and LPUSHX on a list whose numbers start anywhere, so also after earlier left pushes: the reversed elements are stored in front, from the number the old header or the promotion determines; as the plain sequence when that is not negative, else exactly under those numbers |
| `Lists.LoadStored` | aggregate.go:93-102 | loading a list whose numbers start anywhere: the plain sequence and its numbers when it holds one, the stored sequence rotated at zero when it was pushed under negative numbers |
| `Lists.ReadStored` | aggregate.go:172-192 | what a list reads as in any form: the stored sequence, rotated at zero when it was pushed under negative numbers |
| `Lists.PushLeftThenRange` | cmd_list.go:34-213 | LPUSH to a list whose numbers start anywhere followed by a full read gives the pushed sequence if and only if the first number, fixed by the header before the push, is not negative, all numbers are negative, or the sequence repeats |
| `Lists.LongPushRotates` | cmd_list.go:62-102 | LPUSH of a 65-byte value to an inline list of one element reads back after it |
| `Lists.StoredInterval` | cmd_list.go:62-102 | under a key that holds a list the element keys are one interval of numbers from a non-negative one on, in list order, or none when inline |
| `Lists.StagePops` | cmd_list.go:148-165 | the deleted keys are exactly those of the popped elements, and head or tail moves past them |
| `Lists.Pop` | cmd_list.go:105-182 | LPOP n and RPOP n return and remove the end of the plain sequence; an emptied list is deleted |
| `Lists.ClampExactly` | cmd_list.go:193-213 | an index is in a slice if and only if it lies between the two ends once negative ones are counted from the end |
| `Lists.SliceExactly` | cmd_list.go:193-213 | a slice holds exactly the elements between its two ends, in order |
| `Lists.PopConserves` | cmd_list.go:105-182 | a pop returns up to n elements off its end, and what it returns and what is left are the list |
| `Lists.SetAtExactly` | cmd_list.go:215-242 | LSET applies exactly to the indexes of the list, counted from either end, and changes that one element |
| `Lists.TrimExactly` | cmd_list.go:325-352 | LTRIM leaves that slice, or no key when it is empty |
| `Lists.ReverseAt` | cmd_list.go:43-49 | the i-th element pushed to the left becomes the i-th from the end of those pushed |
| `Lists.Range` | cmd_list.go:184-213 | LRANGE returns that slice of the plain sequence and changes nothing a reader sees |
| `Lists.SetAt` | cmd_list.go:215-242 | LSET replaces one element of the plain sequence or fails with the right error; in the sparse form it writes one key and leaves the header |
| `Lists.Trim` | cmd_list.go:325-352 | LTRIM leaves the slice, or no key when it is empty |
| `Keyspace.Execute` | cmd_hash.go:24-132 | one command on any key takes the plain state of that key to its outcome and leaves every other key's plain state alone |
| `Keyspace.Run` | aggregate.go:47-104 | over every run of HSET, HDEL, SADD, SREM, ZADD, ZREM, RPUSH, pops, LSET, LTRIM, LRANGE, full reads and DEL on any keys, with evictions, clock advances, expiry cycles and restarts in between, the store refines plain maps, sets, scored sets and sequences; replies agree save the count of a call that gives a new element twice, and while no call does header counts are exact |
| `Keyspace.IndexesAgree` | cmd_zset.go:51-226 | in every state such a run reaches, for every key, score and member: the score index has the pair if and only if the member index maps the member to the score, and only for members of a sorted set |
| `Keyspace.NoLeftovers` | aggregate.go:203-266 | in every state such a run reaches, an absent key and a key stored inline have no element key in any segment |
| `Streams.NextExactly` | stream.go:74-79 | the entries above an id are those at or above its successor, for every id but the greatest, whose successor wraps |
| `Streams.IdOrder` | stream.go:62-102 | byte order of a stream's entry keys is id order |
| `Streams.LastRangeExactly` | stream.go:286-297 | the range searched for the newest entry contains the stream's own entries and those of exactly the streams whose name continues with 0x01 |
| `Streams.ContinuedNameIntrudes` | storage/pebble.go:186-199 | an entry of the stream "a", 0x01 falls into the range of the stream "a" |
| `Streams.LastEntry` | stream.go:286-297 | the reverse seek finds the greatest id present, or none |
| `Streams.AssignLeast` | stream.go:217-265 | every append, explicit, auto or ms-*, gets the least admissible id above the newest entry and is refused if and only if there is none |
| `Streams.Log.Add` | stream.go:205-281 | a stored id is above every present one and only its entry is written; a refused or NOMKSTREAM append changes nothing |
| `Streams.WindowExactly` | stream.go:304-320 | the scan bounds select exactly the ids between the two given bounds, save the last millisecond when the upper bound is the greatest id |
| `Streams.Collect` | stream.go:322-344 | the callback collects exactly the readable entries of the window in id order |
| `Streams.SwapEnds` | stream.go:348-352 | the swapping loop reverses |
| `Streams.RangeUnique` | stream.go:301-357 | the readable entries of a window in id order are one sequence, so the answer is determined |
| `Streams.Range` | stream.go:301-357 | the answer to a range with a count: readable entries between the bounds, ascending, or descending when reversed; no more than count, and an entry between the bounds is left out only when there are count that come sooner in that order |
| `Streams.ShownAnswers` | stream.go:348-355 | its length is count or, when that is not positive or the window is smaller, the window's size |
| `Groups.StartKeeps` | cmd_stream.go:621-633 | starting a read of new entries keeps the protocol invariant |
| `Groups.MoveKeeps` | cmd_stream.go:634-641 | the cursor moves strictly forward and only over entries that are pending or acknowledged by then, although entries were appended meanwhile |
| `Groups.AppendKeeps` | stream.go:205-281 | an append between any two writes of a read keeps the invariant |
| `Groups.RemoveKeeps` | stream.go:396-423 | a removal after which every exposed id has an entry at or above it keeps the invariant |
| `Groups.StepKeeps` | cmd_stream.go:554-748 | every single write, read or crash keeps the invariant, and the cursor never moves back |
| `Groups.Delivery` | cmd_stream.go:554-748 | in every state of every run, crashes after any write included: each present entry above the creation id and at or below the cursor is pending or was acknowledged, the cursor has not moved back since any earlier state, and no id was handed out twice |
| `Groups.PendingStays` | stream.go:495-507 | over every run a pending entry stays pending until it is acknowledged |
| `Groups.ReadAllDelivers` | cmd_stream.go:621-647 | an unlimited read that completes leaves every present entry above the creation id pending or acknowledged, save ids of the last millisecond |
| `Groups.TrimKeepsSafe` | stream.go:396-423 | trimming to a positive length is a removal of the allowed kind |
| `Groups.TopKeepsSafe` | stream.go:368-423 | so is any removal that leaves an entry at or above what the group has taken |
| `Groups.RemovalExactly` | stream.go:368-423 | after a removal some continuation loses an entry if and only if an id above the creation id, at or below what the group has taken or is taking, and known to neither the records nor the read in progress lies above every entry that is left |
| `Groups.RemovalCanLose` | stream.go:368-393 | deleting the newest entry and appending a lower id makes an entry no read will hand out |
| `Groups.CursorCanGoBack` | stream.go:74-79 | a group created at the greatest id has its cursor moved back by the next read |
| `Groups.FreshUntilMoved` | cmd_stream.go:621-641 | until the cursor moves, what a read has taken is still fresh, so a second read that did not wait would take it again |
| `Groups.RecordExactly` | cmd_stream.go:554-860 | in every state the runs reach, for any id: some run changes who it is pending for, or that it is not pending, although nobody claims or acknowledges it, if and only if the read in progress has still to write another record for it, or it lies above the cursor and not in the last millisecond and is an entry or may be appended again |
| `Groups.AckExactly` | stream.go:504-605 | an acknowledgement is undone by some run without a claim of the id if and only if, before it, the read in progress had still to record the id or a later read could take it; at or below the cursor: if and only if a history read had listed the id and not yet rewritten it |
| `Groups.ClaimExactly` | stream.go:509-605 | a claim is undone by some run without another claim or an acknowledgement if and only if the read in progress had still to record the id for someone else or a later read could take it |
| `Groups.CrashUndoes` | cmd_stream.go:621-641 | for example above the cursor: an acknowledgement, a crash before the cursor moved, and the next read records the entry again |
| `Groups.HistoryUndoes` | stream.go:573-605 | for example below it: a history read that listed an entry undoes an acknowledgement or a claim that falls between its list and its write |
| `Delivery.PendingRoundTrip` | stream.go:495-560 | a pending record gives back consumer, count and time for consumers without a zero byte |
| `Delivery.ShowsPending` | stream.go:495-512 | writing one pending record is one delivery or claim step of the protocol |
| `Delivery.ShowsAck` | stream.go:505-507 | deleting one pending record is one acknowledgement step |
| `Delivery.ShowsCursor` | stream.go:475-480 | writing the group key moves the cursor and nothing else |
| `Delivery.ShowsAppend` | stream.go:205-281 | storing an entry whose fields fit their length fields is one append step |
| `Delivery.GroupGet` | stream.go:457-472 | the prefix scan finds the group's own record when it exists and nothing when no key has the prefix |
| `Delivery.RangeIsFirst` | cmd_stream.go:629-632 | the entries read after the cursor are the first fresh ones of the protocol |
| `Delivery.ReadNew` | cmd_stream.go:621-647 | the loop's engine writes are exactly the protocol's steps of one read, and the reply hands out the ids read: all fresh ones without a count, the first ones with it; every entry read has a pending record with that consumer, count 1 and the time of the read |
| `Delivery.AckAll` | cmd_stream.go:725-748 | XACK's deletes are a run of acknowledgement steps; the reply counts the ids given |
| `Locks.LockOrder` | store.go:131-150 | the shards to lock are those of all keys, each once, in strictly descending order, for any shard function |
| `Locks.StepKeeps` | store.go:151-163 | every locking or unlocking step of any command keeps shards held by a writer exclusive, with writers that announce themselves ahead of new readers |
| `Locks.DeadlockFree` | store.go:131-164 | in every state that satisfies the invariant and has an unfinished command, some command can take a step |
| `Locks.NeverStuck` | store.go:131-164 | that holds in every reachable state for any number of commands |
| `Locks.Exclusion` | store.go:131-164 | two commands that share a key, one of them writing, are never both inside |
| `Locks.NeverBothInside` | store.go:131-164 | that holds in every reachable state for any number of commands |
| `Locks.OppositeOrdersStick` | store.go:121-127 | two writers that take two shards in opposite orders can be stuck |
| `Blocker.ParksExactly` | blocking.go:50-59 | whatever parks, leaves and notifies happened since the version was read, a sleeper parks if and only if no notify did |
| `Blocker.NextNotifyWakes` | blocking.go:50-88 | a parked sleeper is among the channels the next notify takes, whoever else parks or leaves before |
| `Blocker.Notifier.Withdraw` | blocking.go:68-75 | a timed-out sleeper takes out its own channel and no other |
| `Blocker.BumpKeeps` | blocking.go:83-88 | moving the version leaves every parked popper in the pusher's list |
| `Blocker.WakeKeeps` | blocking.go:89-94 | sending to one sleeper leaves the others in the list |
| `Blocker.PopperKeeps` | blocking.go:141-175 | every step of a popper, and the pushing write, keeps the invariant: checked lists with elements have a pusher that has not moved the version |
| `Blocker.NeverLost` | blocking.go:40-175 | in every reachable state of any number of poppers, late poppers and pushers: a popper parked without a token over a list with elements, with no pusher that has still to move the version or to wake it, is one that read the version late |
| `Blocker.NoneLost` | blocking.go:40-175 | so without late poppers no wake-up is ever lost |
| `Blocker.LateVersionLoses` | cmd_stream.go:655-682 | a run from no threads at all in which a popper that reads the version only after its check, as blocking XREADGROUP does, loses its wake-up |
| `Glob.MatchClass` | glob/glob.go:184-210 | the class scan accepts exactly the bytes of its spans, or the others when negated, and ends where the run alone decides |
| `Glob.MatchAt` | glob/glob.go:146-179 | a run matches at a position if and only if its tokens accept the bytes there, and takes a width fixed by the run alone |
| `Glob.SplitPattern` | glob/glob.go:130-141 | the runs are star-free and joined by stars are the pattern |
| `Glob.GreedyStep` | glob/glob.go:75-105 | placing the next run at its earliest match loses no match |
| `Glob.PlaceRuns` | glob/glob.go:75-106 | the greedy loop succeeds if and only if the remaining runs can be placed in order with gaps, the last at the end |
| `Glob.Match` | glob/glob.go:45-107 | for every pattern and string: accepted if and only if the pattern has at most 100 stars and some placement of its runs, in order with arbitrary gaps, covers the string from start to end |
| `Patterns.AcceptsSpelled` | glob/glob.go:45-210 | for any pieces (any byte, a byte plain or behind a backslash, a class of bytes and ranges negated by caret or bang, a gap) written as a pattern: a string is accepted if and only if there are at most 100 gaps and it is one byte of each piece in order with any bytes for the gaps |
| `Patterns.HelloMatches` | glob/glob.go:155-157 | h?llo accepts hello |
| `Glob.PlainMeant` | glob/glob.go:45-141 | when no token covers a star, the placement of runs is the left-to-right meaning of the pattern |
| `Glob.EscapedStarNeverMatches` | glob/glob.go:130-141 | a pattern that escapes a star, and covers none by a class, matches nothing, because the split ignores escapes |
| `Glob.AgreesExactly` | glob/glob.go:1-107 | for patterns without a star inside a class: the matcher accepts exactly the strings the pattern means if and only if no star is escaped and there are at most 100, or some token accepts no byte, so that the pattern means nothing |
| `Glob.EscapedStarInput` | glob/glob.go:130-141 | backslash star means the string star, and nothing is accepted |
| `Glob.ClassStarInput` | glob/glob.go:130-141 | a class of an escaped star accepts backslash bracket, which it does not mean |
| `Glob.ClassStarCanAgree` | glob/glob.go:130-210 | a star inside a class need not show: a star followed by an open class of all bytes and a star is any non-empty string in both readings |
| `Lcs.LenIsMaximum` | cmd_completion.go:771-794 | the table's recurrence is the greatest length of any common subsequence |
| `Lcs.FillTable` | cmd_completion.go:771-794 | every cell holds that length for its two suffixes and a direction that keeps it |
| `Lcs.Compute` | cmd_completion.go:771-818 | the blocks returned are those of the walk, a function of the two strings, that are not shorter than the minimum; the walk's total is the greatest length, and the returned total is it if and only if the walk meets no shorter block |
| `Lcs.LongBlocks` | cmd_completion.go:800-811 | leaving out short blocks keeps the others in order and the total if and only if there are none |
| `Lcs.Spell` | cmd_completion.go:820-826 | the blocks spelled out are a common subsequence of that total length |
| `Lcs.Longest` | cmd_completion.go:771-826 | for a minimum of at most 1 the string is a common subsequence and no common subsequence is longer |
| `Scan.CursorTable.Alloc` | cmd_generic.go:674-696 | a fresh non-zero number for the key; the cleanup loop of a full table drops exactly the expired and the too old cursors |
| `Scan.CursorLives` | cmd_generic.go:674-709 | a cursor resolves to its key until its time is up, through any 2049 further allocations, and to nothing in any other database |
| `Scan.CursorDropped` | cmd_generic.go:674-709 | one allocation more drops it if and only if the table is full by then |
| `Scan.Page` | cmd_generic.go:769-816 | a call reports exactly the hits among the non-empty keys after the cursor up to the last key examined, in order, and stops only when full |
| `Scan.Forward` | storage/pebble.go:226-254 | over an iteration cursors only move forward |
| `Scan.NoneTwice` | cmd_generic.go:728-823 | following cursors from 0 to 0 with any changes in between, every key of a later call lies above every key of an earlier one, so none is reported twice |
| `Scan.Complete` | cmd_generic.go:728-823 | a non-empty key that is present and a hit at every call is reported |
| `Scan.ScanAll` | cmd_generic.go:728-823 | over a keyspace that does not change the iteration ends and reports every hit exactly once |
| `Memory.InsertInverse` | memory/dict.go:54-62 | listing a shard keeps list and positions inverse to each other |
| `Memory.EmptyInverse` | memory/dict.go:65-77 | unlisting by moving the last entry keeps list and positions inverse to each other |
| `Memory.Dict.constructor` | memory/dict.go:106-117 | a new dict is empty with usage zero |
| `Memory.Dict.Lookup` | memory/dict.go:139-154 | an expired entry is dropped and reported missing, with usage and lists kept right |
| `Memory.Dict.Set` | memory/dict.go:199-224 | the entry is replaced, access history kept and version counted up; usage stays the sum of all entry sizes |
| `Memory.Dict.SetCounter` | memory/dict.go:160-180 | an existing entry is flagged without changing usage, a missing one is created |
| `Memory.Dict.SetExpiry` | memory/dict.go:228-252 | only a live entry gets the new expiry, an expired one is removed from usage and lists |
| `Memory.Dict.Delete` | memory/dict.go:255-274 | the entry goes, usage falls by its size, and its shard is unlisted exactly when it becomes empty |
| `Memory.Dict.Flush` | memory/dict.go:402-428 | the database is empty and usage recomputed is the sum over the others |
| `Memory.MovedListsExactly` | memory/dict.go:300-349 | renaming between shards keeps the list of shards right if and only if the source shard keeps an entry or the target shard had one; nothing in the repository calls it |
| `Caching.SetEntry` | memory/dict.go:199-224 | the sharded dict shows the data path's cache after an entry is set |
| `Caching.FlagCounter` | memory/dict.go:160-180 | and after a counter is flagged |
| `Caching.LookUp` | memory/dict.go:139-154 | a lookup answers as the data path's cache does and forgets what has expired |
| `Caching.DropAll` | memory/dict.go:255-274 | and after any entries are evicted |
| `Eviction.PickFromShard` | memory/evict.go:197-220 | a candidate is an entry of the shard with its own figures, with an expiry under a volatile policy; none is found only if no entry qualifies |
| `Eviction.Sample` | memory/evict.go:168-195 | every candidate is a real, evictable entry, and under an all-keys policy a candidate is found while any database has an entry |
| `Eviction.Pick` | memory/evict.go:132-161 | the victim is the best of the sample for the policy |
| `Eviction.VictimMeans` | memory/evict.go:132-161 | the victim was accessed no later than any other of the sample under LRU, used no more often under LFU, and is the next to expire under TTL; expired entries go first |
| `Eviction.EvictOne` | memory/evict.go:114-129 | a success removes one entry that is the best of its sample, lowers usage by its size and changes nothing else; a failure changes nothing |
| `Eviction.MaybeEvict` | memory/evict.go:76-97 | entries only disappear, never one without an expiry under a volatile policy; without a deadline an all-keys policy ends at the target, after 64 evictions or with nothing left |

## Left out

- Fold: decimal fractions and exponents, and the 0x, 0o, 0b and underscore spellings and infinities that a base of 0 admits, which the source folds with 128-bit floats, are taken as unreadable, and integer sums are exact beyond 2^128.
- RunMerger: a base such as 1.5 is taken as no number and kept as it is, where the source folds it.
- MergeIndependence: bases are absent, empty or integers, for the same reason.
- ZAdd: on the loaded path and under INCR scores are numbers other than minus zero, and adding two such scores is taken never to give minus zero, as in IEEE 754-2008; the in-place path has no such condition.
- AgreesExactly: patterns with a star inside a class are excluded; `Glob.ClassStarInput` and `Glob.ClassStarCanAgree` show one that disagrees and one that agrees. Without escaped and class stars `Glob.PlainMeant` holds for every pattern.
- PushRight: the sequence numbers are taken not to run out, which takes 2^63 pushes to one list.
- PushLeft: the same holds below zero. Other commands on a list under negative numbers are not modelled.
- HashSet: field names are shorter than 65536 bytes, here and in `HashSetSparse`; `Codec.HashInlineRoundTrip` states how an inline hash loses longer ones.
- HashSetSparse: see HashSet; the in-place path itself would store longer names.
- SetAdd: members are shorter than 65536 bytes, here and in `SetAddSparse`; `Codec.SetInlineRoundTrip` states how an inline set loses longer ones.
- SetAddSparse: see SetAdd; the in-place path itself would store longer members.
- InPlaceExactly: no member ends at minus zero, which no plain scored set of the model holds; `ZSets.IndexRunExactly` covers it.
- Execute: the bounds named under Run.
- Run: counters of `Session.Run` stay within 2^53, or 2^52 when compactions happen; beyond that `Strings.IncrBy` and `Strings.CompactLog` say what is shown. Keys of collection commands in `Keyspace.Run` hold no zero byte, members of one ZADD are distinct, and collections have no expiry, because expiring, renaming or overwriting a sparse collection leaves its element keys behind.
- LoadList: a list pushed to the left under negative numbers is not a plain sequence any more; `Lists.LoadStored` loads it.
- LastEntry: stream names hold neither 0x00 nor 0x01, and the entry segment holds nothing but entries; `Streams.LastRangeExactly` says what happens otherwise.
- Add: the same holds of stream names; `xAdd` accepts the id 0-0 on an empty stream, which only the command layer refuses.
- Range: the same holds of stream names; entries that do not decode are skipped, as in the source.
- ReadNew: the group exists and consumer names hold no zero byte; the NOGROUP reply and further streams of the same command are not modelled.
- Delivery: reads of one group exclude each other. In the source this rests on the key lock of XREADGROUP, which falls on its first argument, the keyword GROUP as the client spells it; differently spelled keywords do not exclude each other. Its runs allow the removals of which `Groups.RemovalExactly` shows that they cannot lose an entry; entries whose fields overflow their length fields are unreadable and count as absent. XGROUP SETID, which can move the cursor back, and XGROUP DESTROY are not among its events.
- Match: says nothing about time, which the star limit is there for.
- EvictOne: usage falls strictly unless an entry's 32-bit footprint is exactly zero, which takes a key of almost 2^32 bytes.
- The network layer, RESP, argument parsing, INFO, CONFIG, SLOWLOG, CLIENT and pub/sub: plumbing.
- Pebble itself: represented by an ordered map, atomic batches and arbitrary groupings of merge operands; I/O errors are not modelled.
- The clock is fixed during one command, and random draws are parameters or arbitrary choices.
- LREM, LINSERT, LMOVE, COPY, RENAME, SETRANGE, APPEND, set algebra, sorted-set range queries, HSCAN and its kin: they add easy members or do not maintain element keys.
- INCRBYFLOAT and decimal formatting of floats: library rounding.
- MULTI, EXEC and WATCH: queued commands run without key locks, so atomicity is not decided by this code. Versions are counted without their 64-bit wrap-around.
- Cache-mode eviction, LFU increment and decay, and sampling distributions.
- Blocking forms other than the list pops, save the order of check and version in XREADGROUP; the wake-up version is counted without its 64-bit wrap-around.
- Element scans and writes of one key exclude each other through a second lock table; commands are modelled as atomic where the key lock makes them so.
- XGROUP SETID, DESTROY, CREATECONSUMER and DELCONSUMER, XAUTOCLAIM, XINFO and XPENDING summaries.
