# A verified model of the LearnedKV store and the code around it

LearnedKV keeps its values in an append-only log and its positions in a key-value store; garbage
collection rewrites the log in key order and can replace the key-value store by a piecewise-linear
model of key positions. The repository also holds the segmentation algorithm used to measure data
sets, a disk benchmark with paged files, and the hiredis client that the load generator talks
through. This project models these parts in Dafny and proves what they are for.

| files | part of the system |
|---|---|
| `Geometry`, `Hull`, `Segmenter`, `GreedyMetric` | the online convex-hull segmenter and the greedy metric built on it |
| `RespProtocol`, `RespMachine`, `RespTheorems`, `RespForms`, `RespReader`, `RespCommand` | the resumable reply reader and the command formatters of hiredis |
| `LearnedIndex`, `KeyCodec`, `Bloom`, `StoreSpec`, `LearnedStore`, `StoreRuns`, `RangeMerge` | the store: index, key encoding, filter, log, garbage collection, whole runs, range merge |
| `PageModel` | the page-based variant of the index |
| `CallbackQueue`, `AsyncMachine`, `Async`, `AsyncRuns`, `AsyncCommands`, `AsyncEnds`, `AsyncWire` | the callback queue and the life cycle of an asynchronous connection |
| `Dict`, `DictRuns`, `DictWalk` | the chained hash table, its runs and its iterator |
| `SdsQuote`, `SdsForms`, `SdsSplit` | quoting and unquoting with the grammar of argument lines, splitting and joining |
| `PagedStore`, `PagedLookup`, `PagedIndex` | the paged files of the disk benchmark and a lookup across them |

How the parts are modelled:

- Code that updates an object or a buffer step by step is a class or a method with loops. Each method is
  proved against a function of the state before it, and the theorems are about those functions:
  `RespMachine` is the reader as a function of the bytes, `AsyncMachine` the connection as a function of
  events, `StoreSpec` the store as a map with a record count, `DictRuns.Apply` the hash table as a map,
  `SdsQuote.Arguments` the splitter as a recursive reader.
- Integers are unbounded unless a width matters. Keys of the store are 64-bit; the key encoding, the printed
  numbers and the tolerance conversion (`GreedyMetric.AsU64`) have their widths written out.
- `double` is `real`, so every statement about the learned index is one in exact arithmetic.
- Files are sequences, the key-value store is a map from byte strings to byte strings, and memory that the
  source leaves uninitialised is a parameter.
- What the network does to a connection is a list of events. A client is a function from the callbacks run so
  far to what it does in the last of them, so every behaviour of a client is that of some function.
- A segmenter point has its tolerance interval clamped to the range of the value type, as in the source;
  `Segmenter.Near` says what that means for a line, and the segmenter and its metric are stated in these terms.
- A hash function is a parameter of every class that uses one, so nothing depends on which it is.

Where the code and its intention part, the code is followed and the difference is proved:

- Garbage collection drops the greatest live key (its loop stops one before the end).
  `StoreSpec.LastPutIsKept` says exactly which last puts survive a run.
- With the learned index, a collection that finds exactly two live keys rewrites one record and leaves the
  index files stale or unwritten. `StoreRuns.PutAllThenGet` gives the exact condition under which a surviving
  key is still found; `StoreRuns.TwoLiveKeysAtCollection` is a run in which it is not.
- `PGM_metric` reports one run for no keys, and throws when a key repeats (`GreedyMetric.PgmMetric`).
- Data of less than one page is never padded, because the test divides where it should take the remainder;
  the lookup then depends on what the buffer held before (`PagedIndex.ShortData`).
- `sdssplitargs` skips vertical tab and form feed between tokens but ends an unquoted token only at space,
  newline, carriage return, tab and zero (`SdsQuote.OtherBlanks`).
- An array header with a count below -1 is accepted and gives an array object with that count and no elements
  (`RespTheorems.NegativeCount`).

## Model

| member | source | states |
|---|---|---|
| Segmenter.OptimalPiecewiseLinearModel.constructor | learned-LSM/competitor/Efficient-LI-On-Disk/GRE_datasets/generator.cpp:80-87 | a new model covers no point |
| Segmenter.OptimalPiecewiseLinearModel.AddPoint | learned-LSM/competitor/Efficient-LI-On-Disk/GRE_datasets/generator.cpp:119-219 | a point is accepted exactly when some real line comes within the tolerance of it and of all points accepted before, inside the range of the value type; an x that does not increase is reported and changes nothing |
| Segmenter.OptimalPiecewiseLinearModel.Extend | learned-LSM/competitor/Efficient-LI-On-Disk/GRE_datasets/generator.cpp:155-219 | the third and every further point: accepted with a line through all bands, or rejected because there is none |
| Segmenter.MeetsIsNear | learned-LSM/competitor/Efficient-LI-On-Disk/GRE_datasets/generator.cpp:130-131 | a line meets the bands of the points exactly when it comes within the tolerance of every point and stays in the range of the value type |
| Segmenter.OptimalPiecewiseLinearModel.StartHull | learned-LSM/competitor/Efficient-LI-On-Disk/GRE_datasets/generator.cpp:133-144 | the first point makes both hulls and the left corners |
| Segmenter.OptimalPiecewiseLinearModel.OpenHull | learned-LSM/competitor/Efficient-LI-On-Disk/GRE_datasets/generator.cpp:146-153 | the second point makes the two extreme lines: the invariant of both hulls holds from here on |
| Segmenter.OptimalPiecewiseLinearModel.GrowHull | learned-LSM/competitor/Efficient-LI-On-Disk/GRE_datasets/generator.cpp:155-218 | a further point that both extreme lines can still reach keeps the whole invariant for one more band |
| Segmenter.OptimalPiecewiseLinearModel.NarrowBy | learned-LSM/competitor/Efficient-LI-On-Disk/GRE_datasets/generator.cpp:165-215 | both updates together keep corners and hulls those of the bands so far and the new one |
| Segmenter.OptimalPiecewiseLinearModel.LowerSteepest | learned-LSM/competitor/Efficient-LI-On-Disk/GRE_datasets/generator.cpp:165-189 | the upper-side update: new steepest line, advanced start of the lower hull, trimmed upper hull, all invariant |
| Segmenter.OptimalPiecewiseLinearModel.RaiseFlattest | learned-LSM/competitor/Efficient-LI-On-Disk/GRE_datasets/generator.cpp:191-215 | the lower-side update, the mirror image, on the hulls the first update left |
| Segmenter.OptimalPiecewiseLinearModel.Restart | learned-LSM/competitor/Efficient-LI-On-Disk/GRE_datasets/generator.cpp:160-163 | a rejection forgets the points but leaves a valid model |
| Segmenter.OptimalPiecewiseLinearModel.Reset | learned-LSM/competitor/Efficient-LI-On-Disk/GRE_datasets/generator.cpp:227-231 | reset leaves the empty model |
| Segmenter.OptimalPiecewiseLinearModel.GetSegment | learned-LSM/competitor/Efficient-LI-On-Disk/GRE_datasets/generator.cpp:221-225 | the slopes of the lines that come near every point are exactly the range of the returned segment; with one point the range is 0 to 1 |
| Segmenter.FindLowerTouch | learned-LSM/competitor/Efficient-LI-On-Disk/GRE_datasets/generator.cpp:166-175 | the scan with its early break finds the hull point of the flattest line to the new top: no hull point gives a flatter one |
| Segmenter.FindUpperTouch | learned-LSM/competitor/Efficient-LI-On-Disk/GRE_datasets/generator.cpp:192-201 | the same for the steepest line to the new bottom |
| Segmenter.TrimLower | learned-LSM/competitor/Efficient-LI-On-Disk/GRE_datasets/generator.cpp:207-214 | the pops leave a concave chain under which every popped point lies |
| Segmenter.TrimUpper | learned-LSM/competitor/Efficient-LI-On-Disk/GRE_datasets/generator.cpp:181-188 | the same for the upper hull |
| Segmenter.OutsideMisfit | learned-LSM/competitor/Efficient-LI-On-Disk/GRE_datasets/generator.cpp:155-163 | a band beyond an extreme line cannot be met, by any real line, together with the earlier bands |
| Segmenter.HullFits | learned-LSM/competitor/Efficient-LI-On-Disk/GRE_datasets/generator.cpp:155-219 | from the hull invariant some line meets every band |
| Segmenter.ExtremeLinesFit | learned-LSM/competitor/Efficient-LI-On-Disk/GRE_datasets/generator.cpp:155-158 | both extreme lines meet every accepted band |
| Segmenter.SlopeRangeExact | learned-LSM/competitor/Efficient-LI-On-Disk/GRE_datasets/generator.cpp:301-308 | a slope belongs to a fitting line if and only if it lies between the two extreme slopes |
| Geometry.Sandwich | learned-LSM/competitor/Efficient-LI-On-Disk/GRE_datasets/generator.cpp:181-188 | a point on or under a chord is never the only obstacle: why popping loses nothing |
| Geometry.KeepsDropping | learned-LSM/competitor/Efficient-LI-On-Disk/GRE_datasets/generator.cpp:166-175 | along a concave chain a drop never turns: why the early break is safe |
| Geometry.Tilt | learned-LSM/competitor/Efficient-LI-On-Disk/GRE_datasets/generator.cpp:177-179 | for steeper lines the points behind the start never matter again: why the start may advance |
| Hull.AbsorbTop | learned-LSM/competitor/Efficient-LI-On-Disk/GRE_datasets/generator.cpp:165-189 | the hull invariant survives the steep-side update |
| Hull.IgnoreTop | learned-LSM/competitor/Efficient-LI-On-Disk/GRE_datasets/generator.cpp:165-165 | a top on or over the steepest line needs no update |
| Hull.AbsorbBottom | learned-LSM/competitor/Efficient-LI-On-Disk/GRE_datasets/generator.cpp:191-215 | the hull invariant survives the flat-side update |
| Hull.IgnoreBottom | learned-LSM/competitor/Efficient-LI-On-Disk/GRE_datasets/generator.cpp:191-191 | a bottom on or under the flattest line needs no update |
| GreedyMetric.PgmMetric | learned-LSM/competitor/Efficient-LI-On-Disk/GRE_datasets/generator.cpp:311-325 | the loop throws exactly on repeated keys; otherwise its count is the least number of contiguous runs of the sorted keys whose ranks one line each predicts to within the tolerance and in 64 unsigned bits; on no keys it returns 1 although 0 runs are needed |
| GreedyMetric.MeetsIsPredicts | learned-LSM/competitor/Efficient-LI-On-Disk/GRE_datasets/generator.cpp:130-131 | a line meets the bands of a run exactly when it predicts every rank of it to within the tolerance and in the range of the value type |
| GreedyMetric.SegmentationIsPieces | learned-LSM/competitor/Efficient-LI-On-Disk/GRE_datasets/generator.cpp:315-324 | the segmentations of the bands are exactly the ways to cut the keys into runs that one line each predicts |
| GreedyMetric.GreedyAhead | learned-LSM/competitor/Efficient-LI-On-Disk/GRE_datasets/generator.cpp:317-323 | the k-th greedy run starts no earlier than the k-th run of any segmentation |
| GreedyMetric.GreedyIsLeast | learned-LSM/competitor/Efficient-LI-On-Disk/GRE_datasets/generator.cpp:315-324 | no segmentation has fewer runs than maximal greedy runs |
| RespReader.SeekNewline | YCSB-C/redis/hiredis/read.c:120-144 | the scan with memchr steps finds the first CR LF pair |
| RespReader.ReadLongLong | YCSB-C/redis/hiredis/read.c:148-173 | the digit loop reads a signed number up to the first byte that is not a digit, -1 on an ill-formed one |
| RespReader.RedisReader.SetError | YCSB-C/redis/hiredis/read.c:46-70 | an error drops the partial reply, the buffer and the task stack |
| RespReader.RedisReader.MoveToNextTask | YCSB-C/redis/hiredis/read.c:190-213 | both assertions hold in every reachable state; the stack afterwards is that of the next open slot |
| RespReader.RedisReader.ProcessLineItem | YCSB-C/redis/hiredis/read.c:215-247 | one status, error or integer line does what the step function says, or waits |
| RespReader.RedisReader.ProcessBulkItem | YCSB-C/redis/hiredis/read.c:249-300 | one bulk string, null included, does what the step function says, or waits |
| RespReader.RedisReader.ProcessMultiBulkItem | YCSB-C/redis/hiredis/read.c:302-365 | an array header opens its slots, finishes an empty or nil array, or waits |
| RespReader.RedisReader.ProcessItem | YCSB-C/redis/hiredis/read.c:367-414 | a processed item consumes at least two bytes and keeps the result of the whole read |
| RespReader.RedisReader.ProcessItems | YCSB-C/redis/hiredis/read.c:501-505 | the item loop ends and leaves the reader waiting, broken or done, as the whole read says |
| RespReader.RedisReader.DiscardConsumed | YCSB-C/redis/hiredis/read.c:511-516 | dropping the consumed front of the buffer loses no unread byte |
| RespReader.RedisReader.Feed | YCSB-C/redis/hiredis/read.c:445-475 | feeding appends to the unread bytes; a failed reader stays failed |
| RespReader.RedisReader.GetReply | YCSB-C/redis/hiredis/read.c:477-525 | one call delivers the next reply, nothing, or the sticky error, and leaves the rest unread |
| RespReader.DrainReader | YCSB-C/redis/hiredis/read.c:477-525 | calling for replies until there are none equals the drain function |
| RespReader.ReadInChunks | YCSB-C/redis/hiredis/read.c:445-525 | any cutting of a byte stream into feeds, drained after each, gives the replies and the final state of one feed |
| RespMachine.StepExtends | YCSB-C/redis/hiredis/read.c:215-365 | a step that can be taken is not changed by bytes that arrive later |
| RespMachine.ReadReplyExtends | YCSB-C/redis/hiredis/read.c:367-505 | reading more bytes resumes exactly where reading fewer stopped |
| RespMachine.DrainThenFeed | YCSB-C/redis/hiredis/read.c:445-525 | draining before more bytes arrive does not change what is emitted in all |
| RespMachine.ChunkingDoesNotMatter | YCSB-C/redis/hiredis/read.c:445-525 | for every stream and every way to cut it, same replies and same final state |
| RespMachine.StepUses | YCSB-C/redis/hiredis/read.c:367-414 | every step consumes bytes, a completed item at least two with its type byte |
| RespTheorems.StepKeepsValid | YCSB-C/redis/hiredis/read.c:190-365 | every step keeps the stack within nine tasks, all but the last open arrays, one open slot, earlier slots complete and later ones null |
| RespTheorems.FinishKeepsOpen | YCSB-C/redis/hiredis/read.c:190-213 | finishing an item fills exactly the open slot and opens the next, or completes the whole tree |
| RespTheorems.CurrentSlotIsNull | YCSB-C/redis/hiredis/hiredis.c:134-157 | the slot an object is linked into is still empty, so no slot is filled twice |
| RespTheorems.TasksBelowAreArrays | YCSB-C/redis/hiredis/read.c:190-213 | in every reachable state the tasks below the top are arrays with the child index in range |
| RespTheorems.ReadReplyValid | YCSB-C/redis/hiredis/read.c:477-525 | an emitted reply has every element slot filled |
| RespTheorems.DrainValid | YCSB-C/redis/hiredis/read.c:477-525 | every reply of a session is complete, and a session that goes on is in a valid state |
| RespTheorems.RoundTrip | YCSB-C/redis/hiredis/read.c:109-414 | every reply tree with arrays at depth 0 to 7 and CR LF-free lines is read back from its encoding, leaving exactly the bytes that follow |
| RespTheorems.ReadItem | YCSB-C/redis/hiredis/read.c:367-414 | the same for a subtree at any open slot, whatever follows |
| RespTheorems.DeepArrayRefused | YCSB-C/redis/hiredis/read.c:308-313 | an array one level deeper is refused with the protocol error |
| RespTheorems.DepthBound | YCSB-C/redis/hiredis/read.c:302-313 | the depth bound is exact: a well-formed tree is read back if no array is below depth 7, and refused with the protocol error otherwise, however much of it is read before |
| RespTheorems.NegativeCount | YCSB-C/redis/hiredis/read.c:317-353 | an array header with a count below -1 gives an array object with that count and no elements |
| RespTheorems.StreamRoundTrip | YCSB-C/redis/hiredis/read.c:477-525 | a stream of encodings is read back as the list of trees, leaving the rest |
| RespProtocol.ParseDecimal | YCSB-C/redis/hiredis/read.c:148-173 | a printed integer of either sign is read back |
| RespCommand.CountDigits | YCSB-C/redis/hiredis/hiredis.c:193-203 | the four-way loop counts the decimal digits of every number |
| RespCommand.BulkLen | YCSB-C/redis/hiredis/hiredis.c:206-208 | the predicted length of a bulk string is that of its encoding |
| RespCommand.PredictLength | YCSB-C/redis/hiredis/hiredis.c:490-494 | the predicted total is the length of the encoded command |
| RespCommand.FormatCommandArgv | YCSB-C/redis/hiredis/hiredis.c:530-566 | the written bytes are the RESP array of the arguments, terminated by one zero, and fill the buffer exactly |
| RespCommand.FormatSdsCommandArgv | YCSB-C/redis/hiredis/hiredis.c:477-519 | the same bytes as the other formatter, so its length assertion holds |
| RespCommand.EncodeIsWire | YCSB-C/redis/hiredis/hiredis.c:505-512 | the encoding of a command is, byte for byte, a star, the number of arguments and CR LF, then a dollar, the length, CR LF, the bytes and CR LF of every argument |
| RespCommand.CommandRoundTrip | YCSB-C/redis/hiredis/hiredis.c:477-566 | the reader turns a formatted command back into the array of its arguments and consumes all of it |
| RespCommand.WriteDigits | YCSB-C/redis/hiredis/sds.c:337-341 | the digits are written least significant first |
| RespCommand.ReversePrefix | YCSB-C/redis/hiredis/sds.c:318-326 | the in-place reversal reverses the digits and touches nothing else |
| RespCommand.Ll2Str | YCSB-C/redis/hiredis/sds.c:299-328 | every 64-bit signed number, the least one included, is written in decimal with a terminator |
| RespCommand.Ull2Str | YCSB-C/redis/hiredis/sds.c:331-357 | every 64-bit unsigned number is written in decimal with a terminator |
| RespForms.UnknownTypeByte | YCSB-C/redis/hiredis/read.c:373-393 | a byte that begins no type is a protocol error wherever an item is due |
| RespForms.StatusOrError | YCSB-C/redis/hiredis/read.c:215-247 | the text after a plus or minus byte up to CR LF is a status or an error |
| RespForms.IntegerItem | YCSB-C/redis/hiredis/read.c:148-224 | a colon and any line make the integer that the line says, -1 if it says none |
| RespForms.PlusAndZeros | YCSB-C/redis/hiredis/read.c:148-173 | an explicit plus sign and leading zeros change nothing, and a minus sign negates |
| RespForms.NilBulk | YCSB-C/redis/hiredis/read.c:257-268 | a negative length makes the null reply |
| RespForms.BulkItem | YCSB-C/redis/hiredis/read.c:257-300 | a length and that many bytes make a string, whatever the two bytes after them are |
| RespForms.NilOrEmptyArray | YCSB-C/redis/hiredis/read.c:316-356 | the count -1 makes the null reply, 0 and every other negative count an array without elements |
| RespForms.NilArray | YCSB-C/redis/hiredis/read.c:320-331 | the bytes *-1 CR LF are the null reply, as a whole reply and in any slot |
| RespForms.OpensArray | YCSB-C/redis/hiredis/read.c:333-353 | a positive count opens that many empty slots, the first of which is read next |
| RespForms.RefusedAtOnce | YCSB-C/redis/hiredis/read.c:308-314 | an array in the ninth task is refused before anything of it has arrived |
| LearnedIndex.Build | learned-LSM/learnedKV.h:161-211 | with two keys or more the starts increase strictly, every key is predicted within the error bound, and a segment is opened only because the one before it misses a key by more than that: at that key, or one earlier if it is the last |
| LearnedIndex.QueryModel | learned-LSM/learnedKV.h:214-266 | the scan with its breaks picks the last segment that starts at or before the key, truncated toward zero and clamped |
| LearnedIndex.LocateKey | learned-LSM/learnedKV.h:408-437 | the half-open window and its search settle on the place of a key whose rank is within the bound, the excluded upper end reached by falling through; 0 only for the least key |
| LearnedIndex.RankInWindow | learned-LSM/learnedKV.h:410-412 | a prediction within the bound keeps the rank within the truncated window or exactly at its excluded end |
| LearnedIndex.LookUpEveryKey | learned-LSM/learnedKV.h:161-266 | for every ascending key array of two or more, build then lookup resolves every key to its own position, whatever the window buffer held |
| Bloom.BloomFilter.Insert | learned-LSM/utils.h:27-31 | after the loop the filter covers one key more |
| Bloom.BloomFilter.PossiblyContains | learned-LSM/utils.h:34-41 | no inserted key is denied; a key is admitted exactly when all its seven bits are hit |
| Bloom.BloomFilter.Reset | learned-LSM/utils.h:44-46 | a reset filter covers no key |
| LearnedStore.LearnedKV.Put | learned-LSM/learnedKV.h:300-342 | one put is one step of the abstract store; the record is in the log, the key-value store and the filter; a collection before it keeps everything but the greatest live key |
| LearnedStore.LearnedKV.Get | learned-LSM/learnedKV.h:345-494 | a live key is found with its latest value, through filter and key-value store or through the index; with a stale index over a single record exactly when it is the least indexed key, otherwise another record comes back |
| LearnedStore.LearnedKV.CollectGarbage | learned-LSM/learnedKV.h:519-682 | the log becomes the live records in key order without the greatest key, and the store or the index is rebuilt to match |
| LearnedStore.LearnedKV.LiveRecords | learned-LSM/learnedKV.h:541-571 | reading the log from the start keeps the last record of every key |
| LearnedStore.LearnedKV.RewriteLog | learned-LSM/learnedKV.h:586-667 | the rewrite loop writes all valid records but the last and gives the index their keys and positions |
| LearnedStore.SortRecords | learned-LSM/learnedKV.h:592-595 | the live records, each once, in ascending key order |
| LearnedStore.CollectionFrees | learned-LSM/learnedKV.h:303-307 | a collection always makes room for the pending record, even when every record was live |
| LearnedStore.FoundByIndex | learned-LSM/learnedKV.h:396-461 | a live key that is not in the key-value store is found by the index |
| LearnedStore.LoneRecord | learned-LSM/learnedKV.h:669-671 | with a single rewritten record the index stays stale; it leads to the record exactly when its key was the least indexed one |
| StoreSpec.SpaceSuffices | learned-LSM/learnedKV.h:303-307 | in every run the log stays within the group size and no collection leaves the store full |
| StoreSpec.LastPutIsKept | learned-LSM/learnedKV.h:300-342 | a last put is kept with its value if and only if no later collection found its key to be the greatest live one |
| StoreSpec.NothingInvented | learned-LSM/learnedKV.h:519-682 | every live value is that of the last put of its key |
| StoreSpec.WithoutLast | learned-LSM/learnedKV.h:603-645 | stopping one before the end leaves out exactly the greatest key |
| StoreRuns.PutAll | learned-LSM/learnedKV.h:300-342 | every run of puts refines the abstract run, and log and index files carry exactly its history |
| StoreRuns.PutAllThenGet | learned-LSM/learnedKV.h:300-517 | after every run, a surviving key is found with its last value: always without the learned index, with it if it is answerable, and otherwise the value of another key comes back, or none |
| StoreRuns.LastPutDecides | learned-LSM/learnedKV.h:300-342 | the last put of a key and the collections after it decide what the store holds for it |
| StoreRuns.TwoLiveKeysAtCollection | learned-LSM/learnedKV.h:161-166 | three puts after which a live key cannot be read with the learned index |
| RangeMerge.MergeKeyValueVectors | learned-LSM/learnedKV.h:268-298 | the two-pointer loop and its two tails compute the merge |
| RangeMerge.MergeAscends | learned-LSM/learnedKV.h:268-298 | merging two strictly ascending lists gives a strictly ascending list |
| RangeMerge.MergeOverrides | learned-LSM/learnedKV.h:268-298 | a key has the value of the first list where it has one, else that of the second |
| KeyCodec.KeyRoundTrip | learned-LSM/utils.h:143-177 | the 8-byte encoding of every key is read back |
| KeyCodec.StringIsBigEndian | learned-LSM/utils.h:143-177 | swapping both halves and exchanging them makes the bytes of a little-endian machine big-endian |
| KeyCodec.StringOrder | learned-LSM/utils.h:171-177 | the byte order of encodings is the numeric order of keys |
| KeyCodec.StringsDiffer | learned-LSM/utils.h:171-177 | different keys have different encodings |
| KeyCodec.SwapTwice64 | learned-LSM/utils.h:143-161 | converting to network order and back is the identity |
| PageModel.Build | learned-LSM/learnedKV_PLR+.h:164-208 | the page-based builder gives strictly increasing starts and every key page within the bound, and opens a segment only at the key before one that the segment so far misses |
| PageModel.Locate | learned-LSM/learnedKV_PLR+.h:245-258 | the binary search finds the segment the linear scan picks for every key not below the first start, else the first one |
| PageModel.PickIs | learned-LSM/learnedKV_PLR+.h:245-258 | the last segment starting at or before the key is the one the scan of the rank-based index picks |
| PageModel.QueryModel | learned-LSM/learnedKV_PLR+.h:229-267 | the middle of the predicted page, truncated and clamped |
| PageModel.PositionNear | learned-LSM/learnedKV_PLR+.h:260-266 | the position is off by at most the bound in pages, half a page and one |
| CallbackQueue.CallbackList.Push | YCSB-C/redis/hiredis/async.c:227-247 | the linked list becomes one longer at its tail |
| CallbackQueue.CallbackList.Shift | YCSB-C/redis/hiredis/async.c:249-263 | the head of the linked list is taken off, or nothing |
| Async.AsyncContext.constructor | YCSB-C/redis/hiredis/async.c:105-140 | a new context is the new connection of the machine |
| Async.AsyncContext.Command | YCSB-C/redis/hiredis/async.c:583-648 | a command is accepted exactly when neither closing flag is set, and is then last in line |
| Async.AsyncContext.RunCallback | YCSB-C/redis/hiredis/async.c:265-272 | a callback is run once, with its reply, and all its client does in it takes effect as in the machine: under a closing flag nothing is accepted, and closing is only recorded |
| Async.AsyncContext.AnswerNull | YCSB-C/redis/hiredis/async.c:281-283 | one step of the teardown drain answers the oldest command with no reply |
| Async.AsyncContext.Teardown | YCSB-C/redis/hiredis/async.c:275-317 | the drain ends although callbacks may ask for commands, and leaves the context as the machine does |
| Async.AsyncContext.DisconnectNow | YCSB-C/redis/hiredis/async.c:331-349 | the assertion of the clean disconnect holds; an error disconnect refuses commands before it drains |
| Async.AsyncContext.Disconnect | YCSB-C/redis/hiredis/async.c:357-362 | accepts no more; disconnects at once only outside a callback and with nothing waiting |
| Async.AsyncContext.Free | YCSB-C/redis/hiredis/async.c:323-328 | inside a callback only the flag is set, outside the context is torn down |
| Async.AsyncContext.HandOut | YCSB-C/redis/hiredis/async.c:437-483 | one reply goes to the command that has waited longest; a reply nobody waits for releases the context if it is an error and fails the assertion if not |
| Async.AsyncContext.Give | YCSB-C/redis/hiredis/async.c:468-483 | the callback gets the reply, and a release it asked for follows at once |
| Async.AsyncContext.ProcessCallbacks | YCSB-C/redis/hiredis/async.c:411-489 | the replies at hand are handed out one by one until there is none or the connection ends, then a failed reader or a finished clean disconnect ends it |
| Async.AsyncContext.HandleConnect | YCSB-C/redis/hiredis/async.c:494-511 | the socket check leaves the connection pending, establishes it, or ends it |
| Async.AsyncContext.HandleRead | YCSB-C/redis/hiredis/async.c:516-535 | nothing is read before the connection is established; a failed read ends it, a good one hands out replies |
| Async.AsyncContext.HandleWrite | YCSB-C/redis/hiredis/async.c:537-562 | nothing is written before the connection is established; a failed write ends it, a good one only empties the output |
| Async.RunEvents | YCSB-C/redis/hiredis/async.c:227-648 | every run of events, for every client, ends in the state and with the outcome of the machine |
| AsyncRuns.TeardownBooks | YCSB-C/redis/hiredis/async.c:275-317 | after the drain every accepted command has been answered and none was accepted meanwhile |
| AsyncRuns.HandOutBooks | YCSB-C/redis/hiredis/async.c:437-483 | handing out one reply keeps the books; exactly the commands with a callback have had it run |
| AsyncRuns.HandAllBooks | YCSB-C/redis/hiredis/async.c:417-484 | of the replies at hand the first k are handed out, one to a command; fewer than all only when a callback asked for the release or nobody waited for the next one |
| AsyncRuns.HandleBooks | YCSB-C/redis/hiredis/async.c:227-648 | the same for every event, which also says why the connection ended if it did |
| AsyncRuns.EveryRun | YCSB-C/redis/hiredis/async.c:227-648 | over every run and client: each accepted command is answered at most once, in submission order, with the replies in arrival order, and its callback is run exactly once if it has one; all arrived replies are handed out while the connection runs, and all up to the event that ended it; at release every command was answered; the assertion fails only on a non-error reply that came when every command had been answered |
| AsyncRuns.ReceivedArrived | YCSB-C/redis/hiredis/async.c:411-535 | the replies handed out are a beginning of those that arrived, all of them while the connection runs |
| AsyncWire.RepliesComeFromBytes | YCSB-C/redis/hiredis/async.c:516-535 | for every client and every cutting of the bytes, the replies handed out are a beginning of the replies in the bytes read, all of them while the connection runs |
| AsyncWire.DecodeIsDrain | YCSB-C/redis/hiredis/async.c:516-535 | decoding as the bytes arrive is draining the reader after every chunk |
| AsyncWire.Happen | YCSB-C/redis/hiredis/async.c:516-535 | bytes are read only from an established connection; they are fed to the reader, and what it yields is handed out |
| AsyncWire.RunWire | YCSB-C/redis/hiredis/async.c:411-562 | reader and context together do, on the bytes, what the machine does on the decoded events |
| AsyncCommands.CommandsComeFrom | YCSB-C/redis/hiredis/async.c:583-648 | the accepted commands are the accepted ones from outside and some of those asked for in callbacks that were run, interleaved in their orders; all of those while the connection is not closing |
| AsyncCommands.AllAcceptedWhileOpen | YCSB-C/redis/hiredis/async.c:583-648 | as long as the connection runs and is not closing every command from outside was accepted |
| AsyncCommands.ClosedForGood | YCSB-C/redis/hiredis/async.c:593-594 | a connection that is closing or at its end accepts nothing more, from outside or from callbacks |
| AsyncCommands.NoneAfterClose | YCSB-C/redis/hiredis/async.c:323-362 | no command is accepted after the client asked to close or release |
| AsyncEnds.CleanDisconnect | YCSB-C/redis/hiredis/async.c:411-489 | after an event that read replies the connection runs on only if it is not to be closed, or output is pending, or a command waits; such an event ends it with neither an error nor a release from a callback only when none of these holds and every command got its reply; what callbacks asked for took effect in order |
| AsyncEnds.OtherEvents | YCSB-C/redis/hiredis/async.c:323-648 | every other event: what it changes, and exactly when it ends the connection |
| AsyncEnds.ClosingIsAsked | YCSB-C/redis/hiredis/async.c:323-362 | a connection that runs is closing exactly if the client asked to disconnect, outside or in a callback, and nobody asked to release it |
| AsyncEnds.HandAllDid | YCSB-C/redis/hiredis/async.c:468-477 | all that callbacks asked for took effect in order: commands are taken, with their bytes, until one asks to close |
| Dict.NextPower | YCSB-C/redis/hiredis/dict.c:306-315 | the least power of two not below the size asked for and the initial size |
| Dict.Dict.constructor | YCSB-C/redis/hiredis/dict.c:65-85 | a new table is empty |
| Dict.Dict.Find | YCSB-C/redis/hiredis/dict.c:243-256 | the entry of a key, or null exactly when the map has no such key |
| Dict.Dict.ExpandIfNeeded | YCSB-C/redis/hiredis/dict.c:295-303 | a first table has four buckets, a full one is doubled, any other stays as it is; afterwards there is a free place and the map is unchanged |
| Dict.Dict.KeyIndex | YCSB-C/redis/hiredis/dict.c:320-337 | -1 exactly for a key that is there, else the remainder of its hash by the table size |
| Dict.AndIsRemainder | YCSB-C/redis/hiredis/dict.c:328-328 | the and with a size mask is the remainder by the size, for every power of two |
| Dict.Dict.BucketOfHash | YCSB-C/redis/hiredis/dict.c:320-337 | in a valid table every entry is in the bucket that is the remainder of its hash by the table size |
| Dict.Dict.Add | YCSB-C/redis/hiredis/dict.c:135-154 | adds exactly a new key; the map and the number of entries follow |
| Dict.Dict.Replace | YCSB-C/redis/hiredis/dict.c:160-179 | the map gets the value; true exactly when the key is new |
| Dict.Dict.Delete | YCSB-C/redis/hiredis/dict.c:182-210 | removes exactly the entry of the key, wherever it is in its chain, and nothing else moves |
| Dict.CutOut | YCSB-C/redis/hiredis/dict.c:192-199 | unlinking at the head or after the previous entry takes one entry out of its chain |
| Dict.Dict.Expand | YCSB-C/redis/hiredis/dict.c:88-132 | refuses a size below the number of entries; otherwise the table has the least power of two that will do and the map is unchanged |
| Dict.Dict.Migrate | YCSB-C/redis/hiredis/dict.c:103-126 | moving entry by entry loses and duplicates none; the counter ends at 0, as its assertion says |
| Dict.MoveChain | YCSB-C/redis/hiredis/dict.c:108-122 | one bucket: every entry ends in the bucket its key belongs to |
| Dict.PushFront | YCSB-C/redis/hiredis/dict.c:144-146 | a new entry becomes the head of its bucket |
| Dict.PlacedDiffer | YCSB-C/redis/hiredis/dict.c:320-337 | entries in their own buckets with distinct keys per bucket have distinct keys in the whole table |
| Dict.CutMembers | YCSB-C/redis/hiredis/dict.c:182-210 | cutting one entry out of the buckets removes that entry only |
| DictRuns.RunOps | YCSB-C/redis/hiredis/dict.c:88-337 | every run of add, replace, delete and find answers as a map would |
| DictRuns.RunNew | YCSB-C/redis/hiredis/dict.c:73-337 | from a new table the answers do not depend on the hash function |
| DictWalk.DictIterator.Next | YCSB-C/redis/hiredis/dict.c:268-286 | gives the next entry of the walk, or null when every entry has been given |
| DictWalk.FromOnce | YCSB-C/redis/hiredis/dict.c:268-286 | the walk over the buckets from i on has exactly their entries, each once |
| DictWalk.Everything | YCSB-C/redis/hiredis/dict.c:268-286 | a whole walk gives every key of the map once |
| DictWalk.DeleteKeepsRest | YCSB-C/redis/hiredis/dict.c:268-286 | deleting the entry just given changes nothing in what is still to come |
| DictWalk.Sweep | YCSB-C/redis/hiredis/dict.c:258-286 | a walk that deletes any of the entries it is given still gives every key once and leaves exactly the others |
| SdsQuote.CatRepr | YCSB-C/redis/hiredis/sds.c:740-763 | appends the quoted form |
| SdsQuote.SplitArgs | YCSB-C/redis/hiredis/sds.c:815-923 | the scanner with its quote states gives the arguments, or nothing on unbalanced quotes |
| SdsQuote.ScanToken | YCSB-C/redis/hiredis/sds.c:823-911 | one token as the reading function has it |
| SdsQuote.QuoteRoundTrip | YCSB-C/redis/hiredis/sds.c:740-923 | for every list of byte strings, splitting their quoted forms joined by spaces gives back the list |
| SdsQuote.OtherBlanks | YCSB-C/redis/hiredis/sds.c:823-895 | vertical tab and form feed are skipped before a token but belong to an unquoted token they occur in |
| SdsQuote.HexRoundTrip | YCSB-C/redis/hiredis/sds.c:767-794 | the two hex digits of every byte are read back |
| SdsQuote.QuotedIsPrintable | YCSB-C/redis/hiredis/sds.c:740-763 | a quoted form holds printable characters only |
| SdsForms.ReadBody | YCSB-C/redis/hiredis/sds.c:832-882 | inside quotes items are read one by one: bytes, escapes and hex codes in double quotes, bytes and escaped apostrophes in single quotes, each as the byte it stands for |
| SdsForms.ReadEntries | YCSB-C/redis/hiredis/sds.c:815-923 | a row of arguments, unquoted or quoted either way or both in one, is read as what they stand for |
| SdsForms.BrokenArgument | YCSB-C/redis/hiredis/sds.c:854-878 | quotes that are not closed, or whose closing quote neither a blank nor the end follows, make the line unreadable |
| SdsForms.EveryLine | YCSB-C/redis/hiredis/sds.c:815-923 | every line is a row of such arguments followed by nothing or by something broken |
| SdsForms.SplitsAsSpelled | YCSB-C/redis/hiredis/sds.c:815-923 | a line splits into given arguments if and only if it spells them in this grammar, and is refused if and only if it is broken |
| SdsForms.SingleQuoted | YCSB-C/redis/hiredis/sds.c:867-882 | between single quotes every byte stands for itself; an apostrophe is written with a backslash before it |
| SdsForms.PlainWord | YCSB-C/redis/hiredis/sds.c:883-908 | a word without blanks and quotes stands for itself |
| SdsSplit.SplitLen | YCSB-C/redis/hiredis/sds.c:658-705 | the tokens join back to the string, none contains the separator, and each ends at the first occurrence of it; an empty separator is refused |
| SdsSplit.JoinSds | YCSB-C/redis/hiredis/sds.c:962-971 | the loop puts the separator between the tokens |
| SdsSplit.SplitThenJoin | YCSB-C/redis/hiredis/sds.c:658-971 | splitting and joining gives the string back for every non-empty separator |
| PagedStore.StoreData | learned-LSM/competitor/Efficient-LI-On-Disk/experiments/util_lid.h:139-170 | every file holds its share of the keys, and no keys give no file; the last page is completed with the greatest key once there is a page of data |
| PagedStore.WholePage | learned-LSM/competitor/Efficient-LI-On-Disk/experiments/util_lid.h:154-169 | with a page of data or more every page that holds a key is read in full, whatever the buffer held |
| PagedIndex.BinarySearch.Build | learned-LSM/competitor/Efficient-LI-On-Disk/indexes/binary-search.h:16-26 | the last key of every full page and the greatest key |
| PagedIndex.BinarySearch.Lookup | learned-LSM/competitor/Efficient-LI-On-Disk/indexes/binary-search.h:29-34 | the records of the first page whose boundary is not below the key, one page wide |
| PagedIndex.RangeHolds | learned-LSM/competitor/Efficient-LI-On-Disk/indexes/binary-search.h:29-34 | a stored key first occurs within the range its boundary gives |
| PagedIndex.InRange | learned-LSM/competitor/Efficient-LI-On-Disk/experiments/util.h:18-22 | the clamped range is not empty and covers the first occurrence |
| PagedIndex.RangeOfPages | learned-LSM/competitor/Efficient-LI-On-Disk/experiments/util_same_block_size.h:8-28 | file and page numbers of the ends of a range address exactly its first and last page among all files |
| PagedLookup.LastMileSearch | learned-LSM/competitor/Efficient-LI-On-Disk/experiments/util_search.h:77-94 | the search over the strided buffer ends where the search function does, within the page |
| PagedLookup.LastMileFinds | learned-LSM/competitor/Efficient-LI-On-Disk/experiments/util_search.h:77-94 | on a sorted page the record found is the key exactly when the page has it |
| PagedLookup.FetchPages | learned-LSM/competitor/Efficient-LI-On-Disk/experiments/util_same_block_size.h:31-67 | one page read and searched; the status compares the record found with the key |
| PagedLookup.OneByOneFetch | learned-LSM/competitor/Efficient-LI-On-Disk/experiments/util_same_block_size.h:103-137 | pages are fetched in order across files; fetching stops early only on the key, and every page passed over missed it |
| PagedIndex.LookUp | learned-LSM/competitor/Efficient-LI-On-Disk/experiments/util.h:18-66 | with a page of data or more the key comes back exactly when it is stored; with less the one short page is searched with what the buffer held |
| PagedIndex.StoreAndLookUp | learned-LSM/competitor/Efficient-LI-On-Disk/experiments/util_lid.h:139-170 | index, files and lookup together return the key exactly when it is stored |
| PagedIndex.ShortData | learned-LSM/competitor/Efficient-LI-On-Disk/experiments/util_lid.h:154-156 | less than a page of data is not padded: a stored key is then found whatever the buffer held if and only if it is 0 |

## Left out

Statements weaker or narrower than the source:

- Segmenter.OptimalPiecewiseLinearModel.constructor: a negative tolerance, for which the source throws, is excluded by a precondition, because a constructor cannot report failure.
- PageModel.QueryModel: says nothing about the read that follows it, because that read mixes page and record units (learned-LSM/learnedKV_PLR+.h).
- LearnedStore.LearnedKV.Get: claims nothing for a key that was never put while the learned index is in use; the source returns success with whatever record it lands on.
- RespReader.ReadLongLong: reads numbers of any size; beyond 64 bits the arithmetic of the source has no defined result.
- RespCommand.FormatSdsCommandArgv: the byte counts are bounded by the widths of the C types that hold them; larger arguments cannot be passed.
- LearnedStore.LearnedKV.constructor: group sizes above 100,000,000 records are excluded; the source accepts them until its assertion on the write position fails.
- StoreRuns.PutAll: the same bound on the group size.
- StoreRuns.PutAllThenGet: the same bound on the group size.
- Async.AsyncContext.Command: the branches for subscribe, unsubscribe and monitor are left out, as those modes are.
- Async.AsyncContext.Teardown: the drains of the subscription callbacks and the disconnect callback are left out.
- Async.AsyncContext.HandleConnect: the connect callback is left out; the source runs it without marking that a callback is running.
- AsyncWire.Happen: the reader is drained before the first reply is handed out, while the source takes one reply at a time; what a released context leaves in its reader is not captured.
- PagedIndex.BinarySearch.Build: data shorter than one page of the index is excluded by a precondition; there the source reads the last element of an empty vector, which has no defined result. The same holds of PagedIndex.StoreAndLookUp.
- PagedLookup.FetchPages: reads and searches one page, as the modelled strategy calls it; the other strategies ask for several.
- Dict.NextPower: does not clamp at the largest `long`, because sizes are unbounded.
- Async.AsyncContext.HandOut: the assertion of the source against a reply that nobody waits for is an outcome, not excluded, because only the server can keep it from failing.

Not modelled:

- 64-bit and 128-bit overflow in the segmenter, of page and record numbers and of table sizes.
- Floating-point rounding; the theorems on learned lookup and page prediction hold in exact arithmetic only.
- Running out of memory, failing system calls and partial reads of a record.
- Sockets, RocksDB, direct I/O, timing, statistics and CSV output.
- `scan` of the store beyond its merge: its key-value half overwrites the decoded position, its index half cuts values at a zero byte.
- The background-collection variant `learnedKV_bgGC.h`, whose recorded positions do not advance and whose reads race with the swap.
- Monitor and publish/subscribe modes, opening the socket, and the connect and disconnect callbacks of the asynchronous client.
- The heap layout of reply objects: the tree is a value with a path to the open slot, so aliasing of reply nodes is not captured.
- The replacement of a large drained read buffer, which changes only capacity, and the growth strategy of sds buffers.
- printf-style formatting of commands (`redisvFormatCommand`); the two argv formatters are modelled with their digit printing.
- The sorting algorithms: `std::sort` is an insertion sort in `GreedyMetric` and a selection of the least key in `LearnedStore`.
- `get_intersection`, `get_floating_point_segment` and `check_point` of the segmenter.
- Duplicating, comparing and freeing keys and values of the hash table through its type functions, and clearing a table; keys are byte strings.
- The payload of benchmark records, the compressed layouts, `WorstCaseFetch`, `OneByOneReverseFetch` and the middle-first strategies, whose loop bounds do not cover every range.
- Granularities other than 1 in the paged lookup: with another one the boundary index, which already counts records, is scaled twice.
- Counters of pages, bytes and time that the fetches return beside the key.
- The wrapped libraries (B+-tree, ALEX, PGM, RadixSpline, LeCo, Bourbon), the data generators, the YCSB drivers and the scripts.
