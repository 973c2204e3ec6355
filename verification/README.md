# A model of Redis 2.8.17 in Dafny

The project models the parts of Redis where a mistake loses or corrupts data, and proves what they promise:

* **LZF** (`Lzf`): the compressor with its uninitialised hash table and patched control bytes, the decompressor with
  its overlapping copies, and the round trip between them.
* **Protocol and append-only file** (`Resp`, `Decimal`, `Util`, `Multibulk`, `AofFile`, `Aof`, `AofRewrite`): the
  encoding of commands, the resumable parser of client connections, the loader and the offline checker on cut files,
  and the server's write protocol with short writes, forks, difference buffers and file switches.
* **Dictionary** (`Dict`, `DictIterator`, `Bits64`, `Cursor`, `DictScan`): two tables and incremental rehashing as a
  map, safe iterators, and the stateless scan with reverse-binary cursors.
* **HyperLogLog** (`Hll`, `HllAdd`, `HyperLogLog`): packed and run-length registers, opcode split and merge in place,
  promotion, merging, the three sums and the cached cardinality.
* **Partial quicksort** (`Pqsort`), **integer sets** (`Intset`, `Endian`), **bit operations** (`Bitops`, `Tables`).
* **Dumps** (`Rdb`, `Rio`, `Crc`, `Dump`): string encodings over a chunked stream, the checksum and DUMP payloads.
* **Formats** (`Formats`): what the bytes of numbers, requests, dumps and registers stand for, in numerals, so that
  the encoders and decoders of the other modules cannot be wrong in the same way.
* **Transactions** (`Multi`): MULTI, EXEC, DISCARD, WATCH, UNWATCH and the two-way index of watched keys.

Code that changes things in place is written as methods on arrays and on classes with the source's fields; each is
proved against a function or predicate over sequences, sets and maps, and the laws are lemmas about those. `hide`
statements only restrict what the verifier unfolds. Outcomes of system calls are parameters or arbitrary choices.
Bytes are integers from 0 to 255, except in `Bitops` and inside `Crc`, where they are bit vectors.

The modules agree with the code where its comments promise more. The comment at dict.c:667-669 claims that a scan
never misses an element that stays in the table. The code does not give that: `DictScan.ShrinkingMisses` is a scan in
which it fails, and `DictScan.ShrinkingScan` builds it. `DictScan.SafeIffNothingMissed` is the exact condition for each
call and `DictScan.CoverageIffSafe` the one for a whole scan; `DictScan.GrowingIsSafe` and `DictScan.SafeCalls` show
when it always holds. Inside MULTI, processCommand refuses some commands without flagging the transaction, although
the comment at multi.c:79-80 asks for it: `Multi.UnflaggedRefusal` says what that means for EXEC.

## Model

| member | source | states |
|---|---|---|
| Lzf.Compress | lzf_c.c:98-296 | for every input but one of length 1, every output limit, every address of the input and every initial content of the hash table: the size returned is at most the limit, and a size above 0 means the output decodes to exactly the input; with room for the input, a 32nd of it and 4 bytes more it always succeeds; n bytes that are all the same always shrink to at most n / 64 + 16 |
| Lzf.Round | lzf_c.c:145-276 | one round of the loop keeps the relation between output and input; in a run of one byte it takes a back reference wherever the code may look for one, and the table has the position before |
| Lzf.Probe | lzf_c.c:147-168 | a candidate is taken exactly when the slot holds an address behind the start and before the position, at most 8192 back, with the same three bytes, far enough from the end; the position is recorded |
| Lzf.Decompress | lzf_d.c:55-148 | computes `Decode` of the stream: the data and its size with the rest of the buffer untouched, E2BIG when it does not fit, EINVAL when the stream is cut short or refers before its start |
| Lzf.DecodeAppend | lzf_d.c:64-148 | decoding a concatenation is decoding the second part on top of the output of the first |
| Lzf.DecodeGrows | lzf_d.c:64-148 | a stream that decodes only ever adds to the output, stays within the room, and a non-empty one adds something |
| Lzf.DecodeLiteral | lzf_d.c:68-83 | a literal run appended to a stream appends its bytes to what the stream means |
| Lzf.DecodeReference | lzf_d.c:85-144 | a back reference over bytes that agree with the next input bytes appends exactly those, also when source and destination overlap |
| Lzf.CopyBackMatches | lzf_d.c:128-143 | a forward copy one byte at a time reproduces the input when its source window agrees with the target window, overlapping or not |
| Lzf.CopyOverlapping | lzf_d.c:128-143 | the in-place loop produces `CopyBack` and leaves everything behind it alone |
| Lzf.CopyLiteral | lzf_d.c:73-82 | the in-place literal copy |
| Lzf.DecompressLiteral | lzf_d.c:68-83 | the literal branch has exactly the effect, or the error, of one instruction |
| Lzf.DecompressReference | lzf_d.c:85-144 | the back reference branch has exactly the effect, or the error, of one instruction |
| Lzf.RefBytesRead | lzf_c.c:214-230 | the one or two length bytes and the offset byte are read back as the length and the distance |
| Lzf.MatchLength | lzf_c.c:171-204 | the unrolled and the plain comparison loops find a match between 3 and 264 bytes that is as long as the limits allow |
| Lzf.PushLiteral | lzf_c.c:263-276 | adding a byte to the open run, and closing a full one, keeps the relation between output and input |
| Lzf.CloseRun | lzf_c.c:206-209 | closing a run patches its placeholder, or takes the placeholder back when the run is empty |
| Lzf.PushReference | lzf_c.c:163-256 | replacing a match by a back reference keeps the relation between output and input, the match goes on until a byte differs or a limit is reached, and the early size test leaves room for what is written |
| Lzf.PushTail | lzf_c.c:278-293 | the last bytes go out as literals, or compression gives up for lack of room |
| Lzf.OffsetInRange | lzf_c.c:145-157 | a wrapped 64-bit pointer difference below the offset limit is the true distance, whatever pattern the uninitialised slot held |
| Decimal.ParseIffPrinted | util.c:308-372 | a string is accepted with value v exactly when it is the printed form of v and v fits a long long; the parser and the printer are what the loops of `Util` compute |
| Decimal.ParsePrinted | util.c:251-303 | a printed number is parsed back, and refused when it is out of range |
| Decimal.PrintParsed | util.c:308-372 | whatever is parsed is the printed form of its value |
| Util.String2ll | util.c:308-369 | the loop with its guards against overflow of an unsigned long long accepts exactly what the strict parser accepts, with the same value, for every string of bytes |
| Util.Ll2string | util.c:251-303 | two digits at a time from the table, from the back: the buffer holds the printed number, its sign and a terminator, and nothing else changes; 0 and an untouched buffer exactly when they do not fit |
| Util.Digits10Counts | util.c:220-238 | the comparisons of digits10 give the number of digits, for every number |
| Decimal.LeadingCut | aof.c:601-604 | every cut of a positive printed number still reads as a positive number, so a cut count line is not mistaken for an empty command |
| Resp.CatCommand | aof.c:392-415 | catAppendOnlyGenericCommand appends the encoding of the command, argument by argument |
| Resp.EncodeAllAppend | aof.c:392-415 | the encoding of a list of commands is that of its parts, one after the other |
| Resp.HeaderShape | aof.c:392-415 | a header is a line of at most 13 bytes whose only CR and LF end it |
| Multibulk.Session | networking.c:938-1175 | for every list of commands and every way the kernel cuts their encoding into reads, the client executes exactly those commands in order, reports no protocol error and has nothing left over |
| Multibulk.Client.ReadQuery | networking.c:1115-1175 | one read of any size up to what is asked for keeps the commands executed and still owed, and consumes exactly its bytes of the stream |
| Multibulk.Client.ProcessInput | networking.c:1076-1113 | every complete command in the buffer is executed in order; with nothing more to come none is left |
| Multibulk.Client.ProcessMultibulk | networking.c:938-1074 | a tracked stream never causes an error; success leaves a complete command, failure a buffer that waits for more |
| Multibulk.Client.ScanCount | networking.c:946-968 | a line is accepted exactly when it has arrived up to its CR and a byte behind it and says a printed number of at most 1048576; a line that says anything else, or is not there within 64 kB, closes the connection |
| Multibulk.Client.ReadCount | networking.c:946-985 | the argument count line, with its limits and errors; an incomplete one stays below the inline limit |
| Multibulk.Client.ScanLength | networking.c:988-1016 | a line is accepted exactly when it has arrived, starts with a dollar sign and says a printed number from 0 to 512 MB; it is waited for exactly when it has not arrived and the buffer is within 64 kB, and anything else closes the connection |
| Multibulk.Client.ReadBulkLength | networking.c:988-1036 | the length line, and the move of a big argument to the front of the buffer |
| Multibulk.Client.ReadBulk | networking.c:1038-1064 | the bytes of one argument, by handing over the whole buffer or by copying: both give the argument and the same remaining stream |
| Multibulk.Client.ResetClient | networking.c:857-864 | the parser is ready for the next command |
| Multibulk.HeaderScan | networking.c:948-957 | in a partly arrived header the CR is found exactly when it is there, and what is in front of it is the printed number |
| Multibulk.Client.CommandComplete | networking.c:1066-1073 | when the last argument has been read the argument vector is the command, and exactly the other commands are still owed |
| AofFile.Load | aof.c:581-704 | for every byte prefix of a log, exactly the commands complete in it are dispatched, in order; with truncation allowed the valid length is the end of the last one, otherwise an incomplete end is an error; in any file, a command that does not start with a star is reported as damage and never cut off |
| AofFile.Process | redis-check-aof.c:105-147 | for every byte prefix of a log with balanced transactions the result is the end of the longest run of complete commands with no open MULTI, where names are compared up to their first NUL byte, as strcasecmp does |
| AofFile.LastClosed | redis-check-aof.c:105-147 | the greatest number of commands that leaves no transaction open |
| AofFile.OpenNext | redis-check-aof.c:117-130 | how one command opens or closes a transaction, and that the last closed position stays while one is open |
| AofFile.ReadCommand | aof.c:595-631 | a command is delivered exactly when all of its bytes are in the file; the end of the file is told apart from a cut, and from a command that does not start with a star |
| AofFile.ReadArgument | aof.c:611-630 | an argument is delivered exactly when all of its bytes are in the file, also when the cut falls inside its length line; one that does not start with a dollar sign is a format error |
| AofFile.ReadLong | redis-check-aof.c:56-68 | a number line of a cut log is accepted exactly when it is complete; in any file an accepted one starts with the prefix, ends in CR LF and says the number returned |
| AofFile.ReadString | redis-check-aof.c:81-99 | a string of a cut log is accepted exactly when it is complete; in any file an accepted one is the bytes in front of a CR LF |
| AofFile.CheckArgs | redis-check-aof.c:112-133 | the arguments are accepted exactly when all are complete, and the transaction counter moves with the command's name |
| AofFile.AllComplete | aof.c:651-658 | in the whole log all commands are complete |
| Aof.Server.Serve | aof.c:65-1313 | over every run of commands, flushes (full, short and undone, short and kept, failed), forks, finished and failed rewrites, stops and starts: the data set is what the executed commands made of it, and while the AOF is on, replaying the file followed by the buffer gives the data set, and the file alone is a prefix of the log |
| Aof.AfterFirst | aof.c:65-1313 | the data set after some events is that after the first one, followed by the others |
| Aof.Server.Restart | aof.c:555-704 | a restart on the file at any point executes exactly the commands complete in it; with an empty buffer it restores the data set |
| Aof.Server.ExecuteCommand | redis.c:1870-1877 | an executed write command is applied and fed, and the log still replays to the data set |
| Aof.Server.Feed | aof.c:454-502 | the same text goes to the buffer and to the difference buffer of a running rewrite; the selected database follows |
| Aof.FeedText | aof.c:454-490 | the text fed is the encoding of a SELECT, when the database changes, and the command |
| Aof.Server.FlushBuffer | aof.c:230-390 | after a full write the buffer is empty and the file has it; after a short write it is undone by ftruncate or kept and taken off the buffer; with fsync always the server stops exactly when the write is not complete; the invariant survives every outcome |
| Aof.Server.ForkChild | aof.c:1078-1129 | the snapshot is the data set at the fork, and the next command fed re-issues SELECT |
| Aof.Server.RewriteDone | aof.c:1172-1313 | success switches to the child's log followed by the differences and turns a waiting AOF on; every failure, a short or failed write of the differences among them, leaves file, buffer, selected database and state alone |
| Aof.Server.StopAppendOnly | aof.c:165-187 | the buffer is flushed first, then the AOF ends off, with no child, and the data untouched |
| Aof.Server.StartAppendOnly | aof.c:192-218 | the AOF waits for its first rewrite and does not promise anything about the old file |
| Aof.SelectForgets | aof.c:1116-1123 | a log that starts by selecting a database replays the same whatever was selected before |
| Aof.SnapshotThenDiff | aof.c:1225-1265 | a log of the snapshot followed by a log of the differences that starts with SELECT is a log of the data set |
| Aof.FedLogged | aof.c:454-502 | feeding one executed command keeps a log that replays to the data set |
| Aof.SelectText | aof.c:461-469 | the SELECT that is formatted by hand is the encoding of that command |
| Aof.RewriteBufferAppend | aof.c:89-129 | the bytes are appended to the blocks, and all blocks but the last stay full |
| Aof.RewriteBufferSizeExact | aof.c:77-86 | the size computed from the last block alone is the number of bytes stored |
| Aof.RewriteBufferWrite | aof.c:132-151 | exactly when every write takes its whole block the file gets all bytes in order and their number is returned; otherwise -1 |
| AofRewrite.RewriteList | aof.c:726-779 | for every list in either encoding, ziplist integers included, and every limit of at least one item per command, the bytes are the encoding of RPUSH commands of as many items as allowed, with the rest in the last |
| AofRewrite.ListReplayed | aof.c:726-779 | replaying those commands appends the items to the list with that key, and all of them are within the limits of the protocol |
| AofRewrite.RewriteAppendOnlyFile | aof.c:962-1041 | with lists as the only values, the bytes written are the encoding of a SELECT and the commands of all lists, for every database that has keys |
| AofRewrite.ListsSnapshotLaw | aof.c:962-1041 | what the protocol asks of the rewriting child: for every data set of lists, replaying its log from nothing gives the data set back |
| AofRewrite.ListServer | aof.c:1078-1129 | a server of lists meets the assumption on the child, so all that is proved of the write protocol applies to it |
| Dict.Dict.Add | dict.c:308-355 | fails exactly on a key that is present; otherwise the map gains it, whatever rehash step or expansion happens on the way; under a safe iterator at most one chain gets a new head |
| Dict.Dict.Replace | dict.c:361-380 | the map has the new value; the result tells whether the key is new |
| Dict.Dict.Delete | dict.c:395-430 | fails exactly on a key that is absent; otherwise the map loses it and nothing else |
| Dict.Dict.Lookup | dict.c:475-494 | the value of the key in the map, from whichever table holds it |
| Dict.Dict.Locate | dict.c:856-878 | a key is found exactly when it is in the map, in the bucket its hash selects; otherwise the bucket to insert into |
| Dict.Dict.Rehash | dict.c:237-274 | any number of steps keeps the map and reports whether rehashing goes on |
| Dict.Dict.SkipEmpty | dict.c:252-255 | the loop over empty buckets stays inside the old table because entries remain in it |
| Dict.Dict.MoveBucket | dict.c:256-271 | emptying one bucket into the new table keeps the map and both counts |
| Dict.Dict.FinishRehash | dict.c:244-250 | the new table takes the place of the empty one without changing the map |
| Dict.Dict.RehashStep | dict.c:303-305 | one step, and none at all while a safe iterator runs |
| Dict.Dict.Expand | dict.c:204-231 | creates or starts rehashing into the smallest power of two that is large enough, and fails exactly while rehashing or for too small a size |
| Dict.Dict.Resize | dict.c:192-201 | moves to the smallest table of at least 4 buckets for the entries, exactly when resizing is allowed and no rehashing is going on |
| Dict.Dict.ExpandIfNeeded | dict.c:816-835 | the first table, or an expansion exactly when the table is crowded, into the smallest table for twice the entries; the map is the same |
| Dict.NextPower | dict.c:838-848 | for every size the smallest power of two of at least 4 that is large enough, and LONG_MAX from there on |
| Dict.MoveChain | dict.c:256-270 | entries moved one by one to the heads of their new chains: both tables stay exact and their union is the same |
| Dict.SearchTable | dict.c:484-490 | walking one chain finds the key exactly when its table holds it |
| Dict.HoldsInsert | dict.c:345-354 | a new head in the selected bucket adds the key to what the table holds and counts it |
| Dict.HoldsRemove | dict.c:407-425 | unlinking an entry removes its key from what the table holds and counts it |
| Dict.FindWithout | dict.c:407-425 | unlinking one entry of a chain changes the search for its key alone |
| Dict.FindNone | dict.c:484-490 | a search fails exactly when no entry of the chain has the key |
| DictIterator.Traverse | dict.c:541-594 | however steps are mixed with searches, additions, replacements and deletions of the entry just returned: every key returned is in the map at that moment, and up to the first NULL every key present at the first step has been returned, exactly once unless it was deleted; before it none of them twice; the dictionary holds what the acts made of it |
| DictIterator.Do | dict.c:541-594 | one act of the user: its effect on the map; the key a step returns is in the map and appended, a deletion is of the key returned last, and a step that finds nothing is the complete end |
| DictIterator.SafeIterator.Next | dict.c:561-594 | a step returns a present entry that was pending, or is the end, where everything promised has been returned |
| DictIterator.SafeIterator.Advance | dict.c:564-582 | to the next bucket, over to the second table while rehashing, or to the end, without losing a pending key |
| DictIterator.SafeIterator.Return | dict.c:586-590 | the next entry is remembered before the user may delete this one |
| DictIterator.SafeIterator.Begin | dict.c:566-572 | at the first step the iterator is counted and every key is pending |
| DictIterator.SafeIterator.Add | dict.c:303-355 | an insertion between steps keeps the iteration sound, even if it starts an expansion |
| DictIterator.SafeIterator.Replace | dict.c:361-380 | a replacement between steps keeps the iteration sound |
| DictIterator.SafeIterator.DeleteCurrent | dict.c:395-430 | deleting the entry just returned keeps the iteration sound |
| DictIterator.SafeIterator.Find | dict.c:475-494 | a search between steps changes nothing |
| DictIterator.Take | dict.c:586-590 | returning an entry takes it, and only it, off what is pending |
| DictIterator.GrownPending | dict.c:345-354 | adding a key changes nothing for the other pending keys, also when it opens a second table |
| DictIterator.RemovedPending | dict.c:407-425 | deleting a key that is not pending changes nothing for the other keys |
| DictIterator.SuffixNext | dict.c:586-590 | the chain from an entry on is that entry and the chain from the next one on |
| DictIterator.DictUnique | dict.c:856-878 | no key is in two places of the two tables, and the keys of the map are exactly those in some chain |
| Cursor.Reverse | dict.c:648-656 | the loop with its shrinking masks computes `Rev` |
| Cursor.RevBits | dict.c:648-656 | `Rev` is the reversal: bit i of the result is bit 63 - i of the argument |
| Cursor.RevTwice | dict.c:648-656 | reversal is its own inverse |
| Cursor.Advance | dict.c:801-808 | setting the unmasked bits, reversing, incrementing and reversing back |
| Cursor.Between | dict.c:801-808 | a word skipped between two cursors lies in the bucket of the first |
| Cursor.AlignedOrder | dict.c:786-798 | with an aligned cursor the larger table's buckets that are left out lie before it in reversed order |
| Cursor.MissedWord | dict.c:786-798 | for a cursor that is not aligned, a word that is left out although it lies after the cursor |
| Cursor.NextIsLow | dict.c:801-808 | the next cursor has no bits above the mask it was computed with |
| DictScan.Scan | dict.c:742-811 | one call reports exactly the entries of the cursor's bucket of the smaller table and of the buckets of the larger one that continue it from the cursor's own upper bits on, and no key twice |
| DictScan.VisitExpansions | dict.c:786-798 | the inner loop visits exactly those buckets of the larger table, and no entry twice |
| DictScan.SafeIffNothingMissed | dict.c:742-811 | one call covers all hashes between its cursor and the next exactly when the cursor is aligned |
| DictScan.CoverageIffSafe | dict.c:667-669 | the exact condition for a whole scan: when no call comes back to the bucket of an earlier call that was not safe, every hash is visited if and only if every call is safe |
| DictScan.MissedForGood | dict.c:742-811 | the word that an unsafe call leaves out is visited by no earlier call, and by no later one that does not come back to the bucket |
| DictScan.RevisitNeedsSmaller | dict.c:801-810 | a scan comes back to a bucket only after the smaller table got smaller again |
| DictScan.RevisitRecovers | dict.c:742-811 | coming back can make up for an unsafe call: a scan over two shrinks that has one and visits every hash |
| DictScan.SafeCalls | dict.c:742-811 | a call is safe when its cursor has no bits above the smaller mask, and always when only one table is in use, so a shrink that finished between two calls is safe |
| DictScan.IterationVisitsAll | dict.c:742-811 | from cursor 0 back to 0 with safe calls, whatever tables are in use at each call, every hash is visited by some call |
| DictScan.GrowingIsSafe | dict.c:742-811 | when the smaller table never gets smaller every call is safe |
| DictScan.ShrinkingMisses | dict.c:667-669 | the documented claim fails: over any dictionaries of 16 buckets of which all but the first have just started to shrink to 4, the scan ends, and a key of bucket 4 that is there throughout is never reported |
| DictScan.ShrinkingScan | dict.c:192-231 | such dictionaries are made by dictAdd, dictExpand, dictRehash and dictResize, for every hash function and every key with such a hash, and their scan misses the key |
| DictScan.CursorAdvances | dict.c:801-810 | every call returns 0 or a cursor whose reversal is strictly larger |
| DictScan.RunsEnd | dict.c:742-811 | whatever resizes happen between the calls, a scan has at most 2^31 of them |
| DictScan.EachBucketOnce | dict.c:742-811 | on a table of 2^k buckets that does not change, a scan takes 2^k calls and visits each bucket exactly once |
| DictScan.UnchangedOnceEach | dict.c:742-811 | while a dictionary does not change, in the middle of rehashing or not, the calls from cursor 0 back to 0 together report every entry, in exactly one place of one call, and nothing else |
| DictScan.StaticIteration | dict.c:742-811 | on a table of any size that does not change, calls from cursor 0 can be continued until the cursor is 0 again |
| DictScan.Iterate | dict.c:742-811 | over any states of a dictionary between calls, with the entries each call reports: a scan that ends with safe calls has reported every key that was there throughout; all calls are safe when the smaller table never shrinks, and each is on one table or with a cursor without bits above the smaller mask; the scan ends after at most 2^31 calls |
| Hll.DenseSetGet | hyperloglog.c:337-366 | setting one packed register changes that register and no other |
| Hll.ExpandAppend | hyperloglog.c:370-386 | opcode strings concatenate as the runs of registers they stand for |
| Hll.ExpandAt | hyperloglog.c:370-386 | the registers before, at and behind the opcode at a position |
| Hll.ExpandReplaced | hyperloglog.c:810-823 | replacing one opcode by others replaces its registers and no others |
| Hll.SplitOps | hyperloglog.c:766-808 | the opcodes written for a split give the old run with one register changed, in at most five bytes |
| HllAdd.PatLen | hyperloglog.c:444-470 | for count c and index i of hash h: h is 16384 q + i with i below 16384, 2^(c-1) divides q, and q / 2^(c-1) is odd unless c is 50 |
| HllAdd.PatternMeaning | hyperloglog.c:444-470 | the count says which bits of the hash above the index are zero: all below the last counted one, which is set or the 50th |
| HllAdd.CountBound | hyperloglog.c:444-470 | the count is between 1 and 50 |
| HllAdd.RunLengthMeaning | hyperloglog.c:458-468 | the count tells exactly which powers of two divide the bits scanned |
| HllAdd.DenseAdd | hyperloglog.c:485-498 | the hashed register becomes the maximum of itself and the count; 1 is returned exactly when something changed |
| HllAdd.SetRun | hyperloglog.c:601-604 | a run of registers is set, the others stay |
| HllAdd.ToDense | hyperloglog.c:568-620 | the dense registers are those of the opcodes; REDIS_ERR exactly when the opcodes do not cover 16384 registers |
| HllAdd.Locate | hyperloglog.c:658-690 | finds the opcode that covers the register, its first register and the opcode right before it |
| HllAdd.SparseUpdate | hyperloglog.c:638-866 | nothing to do exactly when the register is at least the count; an update leaves well-formed opcodes whose registers differ in that one; it grows only within the configured limit, and gives way to promotion only when three more bytes would not fit |
| HllAdd.CutReplaced | hyperloglog.c:810-823 | a split in place changes one register, and earlier opcode boundaries stay boundaries |
| HllAdd.MergeOver | hyperloglog.c:728-747 | the cases that overwrite a single opcode |
| HllAdd.MergeTwo | hyperloglog.c:843-857 | two equal neighbouring VAL opcodes made one stand for the same registers |
| HllAdd.MergeRuns | hyperloglog.c:825-861 | looking at up to five opcodes and merging keeps the registers and never grows the string |
| HyperLogLog.HLL.constructor | hyperloglog.c:1089-1119 | a new value is sparse, empty, and its cached cardinality is right |
| HyperLogLog.HLL.Add | hyperloglog.c:1027-1034 | in either encoding the hashed register is raised to the count, 1 is returned exactly when something changed, and -1 never |
| HyperLogLog.HLL.SparseAdd | hyperloglog.c:638-882 | the same for the sparse encoding; it is promoted only for a count that no VAL opcode holds or when three more bytes would exceed the limit |
| HyperLogLog.HLL.Promotion | hyperloglog.c:868-881 | the conversion keeps the registers, and the assertion that the addition then returns 1 holds |
| HyperLogLog.HLL.Extend | hyperloglog.c:1155-1192 | PFADD: the registers after all elements, true exactly when some register changed, and a stale cached cardinality is marked |
| HyperLogLog.HLL.Recount | hyperloglog.c:967-1024 | the estimate is that of the registers, whatever the encoding |
| HyperLogLog.HLL.Query | hyperloglog.c:1239-1275 | PFCOUNT of one key: the cached value, when it is used, is that of the current registers |
| HyperLogLog.HLL.Run | hyperloglog.c:1155-1275 | over every run of PFADD and PFCOUNT the replies depend on the elements alone: not on encodings, thresholds, promotions or the cache |
| HyperLogLog.RepliesMeaning | hyperloglog.c:1155-1275 | the replies in terms of all elements added before: PFCOUNT gives the estimate of the registers that stand for them, PFADD 0 exactly when those registers stand for the new elements as well |
| HyperLogLog.HLL.MergeInto | hyperloglog.c:1044-1083 | hllMerge raises every register of the array to the maximum, in either encoding |
| HyperLogLog.HLL.Overwrite | hyperloglog.c:1323-1335 | the destination becomes dense and holds exactly the merged registers; its cache is invalid |
| HyperLogLog.Merge | hyperloglog.c:1285-1345 | PFMERGE: the destination holds the register-wise maximum of itself and all sources, which may repeat it |
| HyperLogLog.CountUnion | hyperloglog.c:1200-1230 | PFCOUNT of several keys is the estimate of their register-wise maximum |
| HyperLogLog.RepresentsUnique | hyperloglog.c:473-498 | a set of hashes determines the registers |
| HyperLogLog.AddAllRepresents | hyperloglog.c:473-498 | adding hashes in any order gives the registers of the set of hashes |
| HyperLogLog.ElementOrderIrrelevant | hyperloglog.c:473-498 | order and repetition of elements do not matter |
| HyperLogLog.JoinRepresents | hyperloglog.c:1037-1083 | the register-wise maximum of two values is the value of the union of their sets |
| HyperLogLog.MergeIsUnion | hyperloglog.c:1037-1083 | merging the values of two runs of additions gives the value of both runs together |
| HyperLogLog.DenseSum | hyperloglog.c:504-558 | the unrolled loop over sixteen registers gives the sum of 2^-reg and the number of zero registers |
| HyperLogLog.SparseSum | hyperloglog.c:888-918 | the same sum and number from the opcodes; invalid exactly when they do not cover all registers |
| HyperLogLog.RawSum | hyperloglog.c:928-954 | the same sum and number from one byte a register, skipping zero words |
| HyperLogLog.PowerTable | hyperloglog.c:975-983 | the table of negative powers of two |
| Pqsort.Pqsort | pqsort.c:179-185 | for every array, total preorder and range: the array is permuted, and at every position of the range nothing before is greater and nothing behind is smaller |
| Pqsort.SortSegment | pqsort.c:98-177 | the same for a segment, by recursion on the smaller and iteration on the greater elements; what is outside stays |
| Pqsort.AgreesWithSort | pqsort.c:179-185 | inside the range the result agrees with every full sort of the same elements, up to equivalence |
| Pqsort.Partition | pqsort.c:114-156 | one round leaves the smaller elements, those equal to the pivot and the greater ones in this order, a permutation of the segment |
| Pqsort.Scan | pqsort.c:127-150 | the two scans meet with equal elements collected at both ends |
| Pqsort.ScanUp | pqsort.c:131-137 | the scan from the left keeps the four zones and stops at a greater element |
| Pqsort.ScanDown | pqsort.c:138-144 | the scan from the right keeps the four zones and stops at a smaller element |
| Pqsort.VecSwap | pqsort.c:86 | two blocks are exchanged and nothing else changes |
| Pqsort.ChoosePivot | pqsort.c:114-125 | the pivot is an element of the segment |
| Pqsort.Med3IsMedian | pqsort.c:88-96 | the element chosen of three lies between the other two |
| Pqsort.InsertionSort | pqsort.c:107-113 | a short segment is sorted in place |
| Pqsort.Advance | pqsort.c:157-175 | a round puts the elements up to the greater ones in place |
| Pqsort.Finish | pqsort.c:157-175 | with the last segment in place everything is in place |
| Pqsort.PlaceNotAbove | pqsort.c:179-185 | two arrangements of the same elements with position i in place cannot differ there, by counting |
| Rdb.SaveRawString | rdb.c:270-300 | with compression on or off, the count returned is that of the bytes written, these load back as the string, and whatever follows is left alone; without a stream the count is that of such an encoding; a string that is not compressed is an integer where possible and otherwise its length and bytes |
| Rdb.SaveAndLoad | rdb.c:270-359 | what one side saves a reader gets back, with the rest of the stream untouched |
| Rdb.LoadStringObject | rdb.c:333-359 | the loader returns what the format says and stops right behind it; NULL at the end of the stream or for a bad compressed string |
| Rdb.LoadIntegerObject | rdb.c:166-191 | the sign-extended integer of 1, 2 or 4 bytes, printed |
| Rdb.LoadLzfObject | rdb.c:249-266 | the decompressed string, padded with zeros to its stated length |
| Rdb.LoadLen | rdb.c:111-135 | a length of 6, 14 or 32 bits or an encoding number, None at the end of the stream |
| Rdb.SaveLen | rdb.c:82-106 | the bytes of a length and their number, to a stream or only counted |
| Rdb.LengthRoundTrip | rdb.c:82-135 | every length is read back, whatever follows it |
| Rdb.IntegerEncodes | rdb.c:141-191 | every integer with an encoding is loaded back as its decimal text |
| Rdb.PlainEncodes | rdb.c:292-359 | a length and the bytes load back as the bytes |
| Rdb.LzfEncodes | rdb.c:212-266 | a stream that decodes to the string, with its two lengths, loads back as the string |
| Rdb.TryIntegerEncoding | rdb.c:196-210 | exactly the canonical decimal texts of numbers of at most 32 bits are encoded as integers |
| Rdb.StrtollPrinted | rdb.c:200-202 | strtoll takes all of a printed number and returns it |
| Rdb.SaveLzf | rdb.c:212-247 | 0 without writing when the string is short or does not compress, otherwise the count of bytes that load back as it |
| Rdb.SaveLongLong | rdb.c:303-318 | an integer object is saved so that its decimal text loads back |
| Rdb.SaveStringObject | rdb.c:322-331 | a string object, a number kept as such or raw bytes, is saved in a form that loads back as its text |
| Rdb.PrintLength | rdb.c:310-312 | the assertion that a printed long long is shorter than 32 bytes |
| Rdb.WriteRaw | rdb.c:43-47 | the bytes are appended, or only counted without a stream |
| Endian.LittleEndianRoundTrip | rdb.c:141-191 | the bytes of a number are read back as the number |
| Endian.SignedRoundTrip | rdb.c:141-191 | every value that fits a width is read back with its sign |
| Rio.Stream.Write | rio.h:82-93 | for every chunk size the bytes arrive in order, and the running checksum is that of all of them |
| Rio.Stream.Read | rio.h:95-106 | for every chunk size a read succeeds exactly when enough bytes are left, returns them, and checksums all of them |
| Intset.IntSet.Add | intset.c:204-231 | the set gains the value, success exactly when it is new; the bytes stay strictly sorted and the encoding becomes the wider one; when the set grows its byte count is within 32 bits |
| Intset.IntSet.Remove | intset.c:234-251 | the set loses the value, success exactly when it was there |
| Intset.IntSet.Find | intset.c:254-257 | true exactly for the members |
| Intset.IntSet.Search | intset.c:115-154 | the position of a member, or the position where the value belongs between smaller and greater elements |
| Intset.IntSet.UpgradeAndAdd | intset.c:157-180 | widening in place keeps all elements in order and puts the new value at the end on the side of its sign |
| Intset.IntSet.MoveTail | intset.c:182-201 | the tail of bytes is moved, whatever the overlap, and nothing else changes |
| Intset.IntSet.SetAt | intset.c:81-94 | exactly the bytes of one element become those of the value |
| Intset.IntSet.Resize | intset.c:105-109 | the bytes in front are kept |
| Intset.WidenStep | intset.c:167-171 | writing an element wide does not touch a narrow element that is still to be read |
| Intset.WidenDone | intset.c:173-179 | the new value in the free place in front or behind completes the sequence |
| Intset.WiderIsOutside | intset.c:209-214 | a value that needs a wider encoding lies beyond all elements, on the side of its sign |
| Intset.InsertBytes | intset.c:223-230 | room at the end, the tail moved up and the value written: the elements with the value at its position |
| Intset.RemoveBytes | intset.c:244-248 | the tail moved down and the end cut off: the elements without the one removed |
| Intset.EncodingFits | intset.c:45-52 | the encoding of a value is the least that can represent it |
| Bitops.RedisPopcount | bitops.c:61-101 | for every string and alignment the result is the number of one bits |
| Bitops.SwarCounts | bitops.c:84-96 | the parallel count of a word is the number of ones of its four bytes |
| Bitops.TableCounts | bitops.c:65-65 | each of the 256 table entries is the number of ones of its index |
| Bitops.RedisBitpos | bitops.c:110-188 | for every string, alignment and bit: the first position with that bit; -1 exactly when a one is sought in a string of zeros; the length in bits when a zero is sought in a string of ones |
| Bitops.ScanWord | bitops.c:170-187 | the scan with a shifting mask finds the bit in the last word, and the panic behind it cannot be reached |
| Bitops.LoadWindow | bitops.c:146-162 | the word loaded holds the next eight bytes from the left, zeros behind the end |
| Bitops.ScanBit | bitops.c:174-182 | round t of the scan tests bit t of the eight bytes |
| Bitops.MaskEnds | bitops.c:174-182 | the mask runs out after exactly 64 rounds |
| Bitops.BitExists | bitops.c:164-187 | some bit of the window is the one sought, unless all is zero and a one is sought |
| Bitops.UniformWord | bitops.c:136-144 | a word equals the skip value exactly when all of its bytes do |
| Bitops.Bitop | bitops.c:314-426 | every bit of the result, by positions: for AND it is set in all sources, for OR in some, for XOR in an odd number of them, for NOT in none, where sources are padded with zeros up to the longest one, which gives the length |
| Bitops.FoldIsBitwise | bitops.c:413-425 | folding the sources with the byte operation gives the byte with those bits |
| Bitops.FastPath | bitops.c:348-410 | whole blocks of 32 bytes, as far as every source reaches, hold the operation over all sources |
| Bitops.WordIsBytes | bitops.c:360-408 | operating on words is operating on their bytes |
| Bitops.SlowByte | bitops.c:413-425 | one byte of the result over all sources |
| Multi.Run | multi.c:35-323 | over every run of connections, disconnections and commands of all clients, all replies and the final state are those of a machine without flags on clients, whose EXEC runs the queue if and only if no flagged refusal came in and no watched key was touched, or removed by a flush, since its watch began |
| Multi.TransactionLaw | multi.c:114-182 | from any reachable state: whatever other clients do meanwhile, EXEC runs exactly the commands queued since MULTI, if and only if no refusal was flagged and no key watched before was touched at or after the beginning of its watch; EXECABORT exactly after a flagged refusal; running them leaves the keys, the touches and all sessions as if the client had given up the transaction and sent the commands one by one, the first one first, and not running them as if it had only given up |
| Multi.ExecAsSent | multi.c:114-182 | the same of one EXEC in any state |
| Multi.QueuedInOrder | multi.c:56-70 | the queue holds the commands the client sent between MULTI and EXEC that are neither refused nor MULTI, EXEC, DISCARD or WATCH, all of them, in the order sent |
| Multi.InTransaction | multi.c:56-84 | inside a transaction commands are queued in order, flagged refusals are noted, and watches stay as they are |
| Multi.UnflaggedRefusal | redis.c:2072-2109 | a refusal without flagTransaction (read-only slave, pub/sub context, loading) changes nothing, so what is queued around it still runs |
| Multi.RefusedWriteStillRuns | redis.c:2072-2080 | MULTI, a write refused by a read-only slave, a command that is queued, EXEC: the queue runs |
| Multi.Server.ExecCommand | multi.c:114-182 | the queue runs exactly then, through one state after the other from its first command to its last; the error reply is EXECABORT after a queueing error and otherwise nil, and then nothing is executed; the client ends outside the transaction and watches nothing |
| Multi.Server.Process | redis.c:1987-2137 | every command, as a function of the session, the keys and the log of touched keys: queueing, flagged and unflagged refusals, nesting errors, WATCH, DISCARD and EXEC; kept watches keep their beginning and new ones begin now |
| Multi.Server.WatchForKey | multi.c:202-229 | both indexes gain the watch unless it is there, with its beginning recorded |
| Multi.Server.WatchCommand | multi.c:307-317 | all keys are watched, new watches begin now and older ones keep their beginning; refused inside a transaction |
| Multi.WatchMeaning | multi.c:202-229 | the keys named are watched from now on, and those watched before from when they were |
| Multi.Server.UnwatchAllKeys | multi.c:233-257 | the client is taken off every list of the per-database index, empty lists go, and the indexes stay inverse |
| Multi.Server.UnwatchCommand | multi.c:319-323 | nothing is watched and the client is clean |
| Multi.Server.TouchWatchedKey | multi.c:261-278 | exactly the watchers of the key get dirty |
| Multi.Server.TouchWatchedKeysOnFlush | multi.c:284-305 | exactly the clients that watch an existing key of the flushed databases get dirty |
| Multi.Server.DiscardTransaction | multi.c:72-77 | the client is idle afterwards and every other client unaffected |
| Multi.Server.Call | db.c:248-272 | each command changes the keys, the touches and the selected database as it should, and both indexes and every client's flag stay exact |
| Multi.Server.Apply | db.c:236-242 | every change is made, and touches its key when it is signalled, in order |
| Multi.ChangesMeaning | db.c:236-242 | of a data command: the last change to a key decides whether it exists, other keys stay, and exactly the keys of signalled changes are touched |
| Multi.FlushMeaning | db.c:248-262 | of a flush: the keys of the flushed databases that exist are touched and gone, other keys stay |
| Multi.Server.Connect | networking.c:53-127 | a new client is idle and appended |
| Multi.Server.Disconnect | networking.c:639-690 | a freed client leaves both indexes |
| Multi.Server.FlagTransaction | multi.c:81-84 | a flagged refusal marks the transaction, and only inside one |
| Multi.Server.QueueMultiCommand | multi.c:56-70 | the command is appended to the queue and does nothing yet |
| Multi.Server.MultiCommand | multi.c:86-93 | a transaction starts empty and clean; nesting is refused |
| Multi.Server.DiscardCommand | multi.c:95-102 | the transaction is dropped; refused outside one |
| Multi.InverseAdd | multi.c:211-229 | adding a watch on both sides keeps the indexes inverse |
| Multi.InverseDrop | multi.c:243-253 | dropping a watch on both sides, and the list when it gets empty, keeps the indexes inverse |
| Multi.EventDisturbs | multi.c:261-305 | one more event disturbs exactly the clients that watch a key in it, and those disturbed before |
| Multi.WatchIsFresh | multi.c:211-229 | a watch that begins now is not disturbed by earlier touches |
| Crc.Crc64Loop | crc64.c:173-181 | the loop computes the checksum bit by bit: for each bit of each byte, the lowest first, the running value is shifted right and the polynomial taken off when its lowest bit differed from that bit |
| Crc.CheckValue | crc64.c:1-11 | the check value of the specification, that of 123456789 |
| Crc.StepIsBits | crc64.c:41-179 | one lookup in the table does what the eight bits of the byte do one after the other, so the table is that of the polynomial |
| Crc.OctetValue | crc64.c:177-178 | the bits of a byte are those of its number |
| Crc.TableIsLinear | crc64.c:41-171 | all 256 entries of the table are the combination of eight of them |
| Crc.TopBytesDiffer | crc64.c:41-171 | the top bytes of the table's entries are all different |
| Crc.StepInjective | crc64.c:176-179 | one step is injective in the running value and in the byte |
| Crc.Crc64Append | crc64.c:173-181 | the checksum of a concatenation continues from that of its first part |
| Crc.Crc64Injective | crc64.c:173-181 | different running values stay different over the same bytes |
| Crc.OneByteChanges | crc64.c:173-181 | a change of exactly one byte changes the checksum |
| Dump.CreateDumpPayload | migrate.c:10-37 | a dumped string object, raw or kept as a number, passes verification, and behind the type byte the loader finds its text and stops at the footer |
| Dump.AppendFooter | migrate.c:27-36 | version and checksum appended to anything make an acceptable payload |
| Dump.VerifyDumpPayload | migrate.c:43-60 | accepts exactly payloads of at least 10 bytes with the right version and checksum |
| Dump.OneByteRejected | migrate.c:43-60 | no version of an accepted payload that differs in exactly one byte is accepted, wherever the byte is |
| Dump.CrcIsChunkable | rio.c:143-145 | the checksum can be kept over a stream in chunks of any size |
| Formats.DecimalText | util.c:251-303 | digit k from the right of a printed number is its k-th decimal digit, and there are as many digits as the number needs |
| Formats.LittleEndianByte | rdb.c:141-160 | byte k of a stored number is its k-th byte, the lowest first |
| Formats.SignedBytes | rdb.c:166-191 | what one, two and four bytes stand for: a top byte of 128 or more makes the number negative |
| Formats.RequestText | aof.c:392-415 | the bytes of a request of two arguments, written out |
| Formats.StoredString | rdb.h:43-58 | strings behind a length of one byte, of two, and of five, with the marks of each, are loaded |
| Formats.StoredInteger | rdb.h:62-67 | integers behind 0xc0, 0xc1 and 0xc2 are loaded as their decimal text |
| Formats.StoredCompressed | rdb.h:62-68 | a compressed string behind 0xc3 and two lengths is loaded |
| Formats.PayloadFooter | migrate.c:43-60 | the ten bytes at the end of an accepted payload: version 6 and the bit by bit checksum of all before, both with the low byte first |
| Formats.BackReference | lzf_d.c:85-144 | what two or three bytes of a compressed string say: how many bytes are added, and that each is the one the stated distance before it |
| Formats.DenseBit | hyperloglog.c:88-99 | bit j of register r is bit 6 r + j of the bytes |
| Formats.SparseOpcodes | hyperloglog.c:107-123 | what the opcodes 00xxxxxx, 01xxxxxx yyyyyyyy and 1vvvvvxx stand for |

## Left out

- Lzf.Compress: an input of exactly one byte, of which the code would read two; the other build configurations.
- Lzf.Decompress: an empty stream, of which the code would read one byte.
- Multibulk: the inline protocol, replies, and clients that are blocked or closing; limits on memory.
- AofFile.Load: the effect of commands on data, the fake client, and what unknown commands print; the loader is modelled up to dispatch. For files that are no prefix of a log only bounds, and the report of a command that does not start with a star, are stated.
- AofFile.Process: files that are no prefix of a well-formed log, for which only the bounds of the result are stated.
- Aof.Server.Serve: the MULTI and EXEC around the commands of a transaction, key expiry, EXPIRE to PEXPIREAT, the fsync policy beyond its effect on a failed write, fstat failures in aofUpdateCurrentSize, and a failed startAppendOnly. Commands are deterministic functions of the data set, and the child's snapshot is a log that leads to it.
- Aof.Server.RewriteDone: the background close of the old file.
- AofRewrite.RewriteList: the other object types; a ziplist is the sequence of its entries, not its bytes.
- AofRewrite.RewriteAppendOnlyFile: values other than lists, expiry times, and the temporary file; the walk over a database is the order of its rows.
- AofRewrite.ListsSnapshotLaw: proved for lists; for other data sets the law stays an assumption of `Aof.Server`.
- Dict.Dict.Add: an expansion to more than 2^31 buckets, where the int result of _dictKeyIndex ends. The precondition excludes exactly that; it also binds Replace, and Expand and Resize to sizes of at most 2^31.
- DictIterator.Traverse: more than 2^30 entries and acts together, so that no insertion can start such an expansion.
- Dict: table sizes are exponents and chains are sequences instead of linked nodes, so pointers and freeing are not modelled; hashes are arbitrary 64-bit words, of which the source uses 32; dictReplaceRaw, random keys, dictEmpty and dictRehashMilliseconds.
- DictIterator.SafeIterator.Next: entries are named by their keys, so a key that was deleted and added again between two steps may be returned again; unsafe iterators, their fingerprint and dictReleaseIterator.
- DictScan.Scan: the callback is the list of entries it is called with.
- Hll: shifts and masks of bytes are written as quotients and remainders.
- HllAdd.ToDense: opcodes that cover more than 16384 registers, or end inside an opcode; sparse values are well formed.
- HyperLogLog.HLL.Recount: MurmurHash64A, the bias correction and the logarithm; the hash is any function, and so is the estimate from the sum and the number of zero registers. Sums are exact reals. The eight unrolled tests of hllRawSum are a loop.
- HyperLogLog.HLL.Extend: creation of missing keys, replication and keyspace events.
- HyperLogLog.Merge: missing sources, which the source skips.
- Pqsort.SortSegment: element sizes and the swap types; pointers are element indices, and the range is compared in elements.
- Rdb.SaveRawString: strings whose size does not fit the int that is returned; allocation failures. With no stream the count is that of some encoding: two runs of the compressor may differ, as its table is not initialised.
- Rdb.LoadStringObject: unknown encoding numbers, at which the source panics; objects other than strings.
- Rdb.LoadLzfObject: a compressed length of 0, of which the decompressor would read a byte; here it is refused.
- Rio.Stream.Write: fsync and the position of a buffer that is written; a failed write may have written a part.
- Intset.IntSet.Add: growing beyond a byte count of 32 bits, which intsetResize would wrap; random members and big-endian hosts.
- Bitops.RedisPopcount: wrap-around of the count, which no string of 512 MB reaches; ranges, SETBIT, GETBIT and replies.
- Bitops.Bitop: key lookup, storing the result, and more than one source for NOT, which the command refuses.
- DictScan.CoverageIffSafe: scans that come back to the bucket of an unsafe call after another shrink; coming back may recover what was missed, as `DictScan.RevisitRecovers` shows, or not.
- Aof.Server.Feed: the translation of EXPIRE, SETEX and PSETEX to PEXPIREAT.
- Multi.Server.Process: replies in full, scripts, blocked clients and monitors; expiry of keys, which does not touch watchers; the MULTI and EXEC that are sent to the log and to slaves.
- Dump.CreateDumpPayload: values other than strings.
- Sockets, event loops, process control, Lua, ziplists, skip lists, configuration, pub/sub and memory management.
