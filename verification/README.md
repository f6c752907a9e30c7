# Archke server: a model with proofs

Archke is a key-value server in C: an incrementally rehashed hash table with a cursor scan, keys with deadlines that are
removed lazily and by a cron job, and clients that send pipelined requests in chunks and receive replies in partial
writes. This project models these parts in the form that the C code gives them and proves what they promise over every
input and every run.

| file | what it holds |
|---|---|
| Words.dfy, Cursor.dfy | machine words as sequences of bits, `rev`, and the arithmetic of the scan cursor |
| StoreModel.dfy | a store as a value: a finite map, a table size, and the progress of a rehash |
| Buckets.dfy, Tables.dfy, Split.dfy, KVStore.dfy | the hash table on the heap: linked chains in arrays, two tables during a rehash, proved to behave as the value |
| Sweep.dfy | sweeps of the scan over a store that changes between the calls |
| TimedModel.dfy, Expiry.dfy | the data table and the deadline table as a value, runs of commands and housekeeping, a reference server |
| Server.dfy | the two stores, the commands on them, the active-expiry scan and the cron tick |
| Protocol.dfy | requests: encoding, the byte-at-a-time parser as a value, round trip and splitting |
| QueryReader.dfy | the parser on the client's fields, with its argument vector and its query buffer |
| Replies.dfy | the reply list and the bookkeeping of partial writes |
| Pipelining.dfy | the read handler's loop over one buffer, and exactly when it skips bytes |
| Conversation.dfy | runs of a whole session as values |
| History.dfy | sessions among the commands of other clients and the cron ticks, against the reference server |
| Answers.dfy | the replies as a client reads them |
| Commands.dfy, Client.dfy | the command procedures, the read handler and the write handler |

## How to read it

Each class that changes state carries a ghost value (`view`, `parser`, `View()`), and each of its methods says what the
new value is as a function of the old one; the main results are lemmas about these functions and about runs of them.
`Valid()` of a class says how the fields represent the value. Predicates compared with `true` are taken by the solver
as single facts; that has no other meaning.

The hash is an arbitrary function. The scan position of a key is its hash with the low 64 bits reversed: a bucket of a
table with 2^k buckets is an interval of 2^(64-k) positions, a scan call moves the cursor's position to the end of its
bucket's interval (`Cursor.BucketInterval`, `Cursor.NextInterval`), and a table only grows, by doubling. Hence a sweep
reports every key that stays exactly once, although it keeps no state but the cursor.

The parameters of the model are the clock readings (arbitrary, and not going back in `Possible` runs), the bytes of
each read, the number of bytes each write takes, and the seconds that an argument of EX denotes.

Where the code does not do what one might expect, the model follows the code:

- `SET` without `EX` keeps an older deadline (archke_commands.c:66-71). `Expiry.SetWithoutExpiryTakesEffect` says
  exactly when the new value is seen, and `Expiry.StaleSetDependsOnCron` shows runs from the empty server in which that
  depends on the cron job. `Expiry.GetMatchesReference` holds for runs without such a `SET`, and
  `Expiry.SetStillMatchesIff` says exactly which `SET` breaks it.
- The read handler adds the absolute index that the parser returns to its position (archke_event_handlers.c:104). The
  position is right after the first command and too far after the second. It also drops what follows a malformed byte.
  `Pipelining.NothingSkippedIff` says exactly which buffers have all their bytes given to the parser, and
  `Pipelining.TailIsLost` gives a family that has not. This is about skipped bytes, not about what is executed: a buffer
  may lose bytes and still execute what it holds, so `Pipelining.ManageableIsExact` goes one way.
- If the last argument of a command is empty, the parser returns one more than the end of the command
  (`Protocol.ParseStopsAtEnd`), so that the next command is not found (`Protocol.SplitEncoded`).
- After a malformed request, one more byte from that client ends the server (archke_server.c:404-405);
  `Conversations.Mode.Ended` stands for that.
- `rchkGetMonotonicUs` returns milliseconds, and `EX` is scaled to milliseconds, so the two agree. The rehashing burst
  ends when its time limit has *not* passed (archke_server.c:464); what that gives is stated as it is.

## Model

| member | source | states |
|---|---|---|
| Words.Rev | archke_kvstore_basic_hash.c:45-53 | the halving-shift mask loop yields the word with bit i moved to width-1-i, for every power-of-two width |
| Cursor.RevBitsInvolution | archke_kvstore_basic_hash.c:45-53 | reversing a k-bit number twice gives it back |
| Cursor.AdvanceMeaning | archke_kvstore_basic_hash.c:371-377 | setting the unmasked bits, reversing, incrementing and reversing back is the successor modulo 2^k of the reversed low k bits, with all higher bits cleared |
| Cursor.Advance | archke_kvstore_basic_hash.c:371-377 | the same for the loop-based `rev` on 64-bit words |
| Cursor.MaskDifference | archke_kvstore_basic_hash.c:402 | the bits of the mask difference in a cursor of the larger table are zero just when it is below the smaller table's size |
| Cursor.InUpperHalf | archke_kvstore_basic_hash.c:402 | the loop test holds just for cursors in the upper half of the new table |
| Cursor.BucketInterval | archke_kvstore_basic_hash.c:362-403 | a hash selects a bucket just when its position lies in the bucket's interval of positions |
| Cursor.NextInterval | archke_kvstore_basic_hash.c:371-377 | the next cursor is in range, its position is the end of the interval, and it is 0 just at the end of all positions: cursors strictly increase in reversed order until they wrap |
| Cursor.NextRefined | archke_kvstore_basic_hash.c:388-402 | two advances in the larger table, over the two buckets that refine a bucket, are one advance in the smaller |
| Cursor.SlotRefined | archke_kvstore_basic_hash.c:298-301 | a key's bucket in the doubled table is one of the two that refine its bucket |
| StoreModel.StepsKeepMap | archke_kvstore_basic_hash.c:313-349 | any number of rehash steps keeps the map, and the table never shrinks |
| StoreModel.StepsProgress | archke_kvstore_basic_hash.c:313-349 | n steps of an active rehash move n buckets and leave it active, until the step for the last bucket leaves the doubled idle table |
| StoreModel.ReportedKeys | archke_kvstore_basic_hash.c:362-403 | the keys that a scan call reports, counted with multiplicity, are the keys whose hash selects the cursor |
| Buckets.SameKey | archke_kvstore_basic_hash.c:102-112 | size check and byte loop decide equality of keys |
| Buckets.Walk | archke_kvstore_basic_hash.c:191-213 | the walk along a chain ends at the node of the key, with its predecessor, or past the end just if the key is absent |
| Buckets.Unlink | archke_kvstore_basic_hash.c:214-218 | unlinking a node leaves every chain as it was but for that key, which is gone from its chain |
| Buckets.PushFront | archke_kvstore_basic_hash.c:169-171 | linking a node in front makes its key the first of the chain that its hash selects, changes no other chain, and keeps all chains linked and in place |
| Buckets.Scatter | archke_kvstore_basic_hash.c:323-331 | relinking a detached chain node by node adds exactly its keys to the new table, on the same nodes |
| Tables.SearchInBuckets | archke_kvstore_basic_hash.c:96-118 | returns the key's node with its value, or null just if the table lacks the key |
| Tables.Insert | archke_kvstore_basic_hash.c:157-176 | maps the new key to its value in the table, adds one node, and keeps chains linked, disjoint and in the right buckets |
| Tables.DeleteFromBuckets | archke_kvstore_basic_hash.c:191-230 | succeeds just if the key is present, removes only it, from its position in its chain |
| Tables.TakeBucket | archke_kvstore_basic_hash.c:318-320 | cuts a whole chain off: exactly the keys of that bucket leave the table, each with the node that it was linked to |
| Tables.AddChain | archke_kvstore_basic_hash.c:322-331 | the detached nodes join the new table; each key is on the node that it had, old or new |
| Tables.MoveBucket | archke_kvstore_basic_hash.c:318-331 | moving one bucket splits the keys between the tables anew without changing the union; every key keeps its own node |
| Tables.VisitBucket | archke_kvstore_basic_hash.c:365-369 | visits the entries of one chain, each once, in order, with their values |
| Tables.PointsAfterRemoval | archke_kvstore_basic_hash.c:383-386 | after the visited key is deleted, the node after it stands at the deleted position |
| Split.Lookup | archke_kvstore_basic_hash.c:120-137 | a key is in the map just if one table has it, and never both |
| Split.MovedBucket | archke_kvstore_basic_hash.c:318-332 | a rehash step keeps the map and leaves the primary buckets below the next index empty |
| Split.Completed | archke_kvstore_basic_hash.c:334-346 | when all primary buckets have been moved, the new table alone holds the map |
| Split.ReportsPlain | archke_kvstore_basic_hash.c:362-369 | without a rehash, one chain lists exactly the keys whose hash selects the cursor |
| Split.ReportsRehash | archke_kvstore_basic_hash.c:382-402 | during a rehash, the primary chain and the two refining chains together list the same keys, each once |
| KVStores.KVStore.constructor | archke_kvstore_basic_hash.c:70-94 | an empty store with a power-of-two number of buckets |
| KVStores.KVStore.UsedCountsNodes | archke_kvstore_basic_hash.c:166-176 | `used` is the number of linked nodes of both tables, and every key has exactly one node, in one table |
| KVStores.KVStore.Search | archke_kvstore_basic_hash.c:120-137 | finds the node with the mapped value, in whichever table it is, or null just if the key is absent |
| KVStores.KVStore.Get | archke_kvstore_basic_hash.c:182-189 | returns what the map holds |
| KVStores.KVStore.RehashActivateIfNeeded | archke_kvstore_basic_hash.c:291-307 | starts a rehash into a table of twice the size, from bucket 0, just if none is active and `used >= size`, and changes no entry |
| KVStores.KVStore.Put | archke_kvstore_basic_hash.c:139-180 | changes the map at exactly this key, in every state of a rehash; after an insertion a rehash is active or `used < size` |
| KVStores.KVStore.Delete | archke_kvstore_basic_hash.c:232-251 | removes exactly this key, tells whether it was there, and says what is left of every chain, also when it starts a rehash; an absent key changes no chain; after a removal a rehash is active or `used < size` |
| KVStores.KVStore.MoveNextBucket | archke_kvstore_basic_hash.c:318-332 | moves the bucket at `rehashIdx` and no other: same map, every key on the same node, the index one further |
| KVStores.KVStore.Complete | archke_kvstore_basic_hash.c:334-345 | replaces the primary table, by then empty, and loses no key and no node |
| KVStores.KVStore.RehashStep | archke_kvstore_basic_hash.c:313-349 | moves exactly one bucket and goes on just if it was not the last; with the last the size doubles and no rehash is active; it allocates nothing and every key keeps its node |
| KVStores.KVStore.VisitRefined | archke_kvstore_basic_hash.c:388-402 | the do-while loop visits exactly the two new buckets that refine the cursor's bucket and ends at the same next cursor as the plain mode |
| KVStores.KVStore.Scan | archke_kvstore_basic_hash.c:352-406 | reports exactly the entries whose hash selects the cursor, each once, and returns the same next cursor in both modes; the results for invalid cursors |
| KVStores.KVStore.IncrementalRehashing | archke_server.c:454-468 | ends for every clock, keeps the map, makes at least one step if a rehash is active, and exactly as many as the clock readings allow |
| Sweep.SweepExactlyOnce | archke_kvstore_basic_hash.c:352-406 | over any sweep of calls that each return what `Scan` does, with puts, deletes and rehashing in between, a key present throughout is returned exactly once and none twice |
| Sweep.SweepInvariant | archke_kvstore_basic_hash.c:352-406 | at every point of a sweep the returned keys lie before the cursor's position, and each key present throughout that lies before it has been returned once |
| Sweep.CursorStaysValid | archke_kvstore_basic_hash.c:353-360 | a cursor that started at 0 always names a bucket, so neither early return is taken |
| Sweep.SweepTerminates | archke_kvstore_basic_hash.c:352-406 | an unfinished sweep has made fewer calls than the final table has buckets |
| TimedModel.NextGet | archke_commands.c:52-140 | what each command, each scan call and each rehash step does to the two entries of any key |
| TimedModel.StaysConsistent | archke_commands.c:52-140 | no operation leaves a key with a deadline and without a value |
| TimedModel.AlwaysConsistent | archke_expire.c:19-39 | over every run, each key in the deadline table is in the data table |
| TimedModel.GetRepliesLive | archke_commands.c:82-103 | GET replies from the entries whose deadline, if any, has not passed |
| TimedModel.PossibleConcat | archke_server.c:480-508 | cron ticks and commands, each possible after the one before, make up one possible run with the composed effect |
| TimedModel.PossibleSooner | archke_server.c:480-508 | a run that is possible from a clock reading on is possible from any earlier one, so a tick may follow after a pause |
| TimedModel.PossibleUpTo | archke_server.c:480-508 | the events before any point of a possible run are a possible run |
| Expiry.HousekeepingIsInvisible | archke_server.c:441-468 | lazy deletion, active expiry of any number of buckets and any amount of rehashing leave all later replies of GET as they were |
| Expiry.SparedKeyKeepsReply | archke_server.c:441-468 | whatever else happens, the reply of GET for a key changes only by a SET or DEL of that key, or with time |
| Expiry.OnlyDueKeysAreRemoved | archke_server.c:446-451 | active expiry removes a key, from both tables, only if its deadline is strictly before the tick's clock |
| Expiry.GetMatchesReference | archke_commands.c:82-103 | at any point of any run GET replies as a server that never removes an expired entry on its own |
| Expiry.ServerMatchesReference | archke_commands.c:52-140 | in every run the server holds each key as the reference does, or has removed it after it expired |
| Expiry.SetStillMatchesIff | archke_commands.c:52-75 | a SET without EX makes the server differ from the reference just when the key has expired and the server has already removed it |
| Expiry.SetWithoutExpiryTakesEffect | archke_commands.c:52-75 | a SET without EX is seen at a time just if no older deadline has passed by then |
| Expiry.ReadYourWrite | archke_commands.c:52-103 | after a SET, and until the next SET or DEL of the key, GET replies with its value just as long as the deadline, that of EX or an older one, has not passed |
| Expiry.StaleSetDependsOnCron | archke_commands.c:65-71 | two possible runs of the empty server, for every hash: a key set with EX 0 and set again without EX, before or after a whole tick, with different replies |
| Expiry.TickOfSmall | archke_server.c:486-508 | a whole tick of a four-bucket server, its four scan calls and its rehashing, removes an expired key from both tables and ends with cursor 0 |
| Expiry.SweepIsComplete | archke_server.c:486-504 | a sweep over any ticks, commands and rehashing removes from both tables every entry that had expired at its start and was not set again |
| Expiry.SweepReaches | archke_server.c:486-504 | at every point of such a sweep the entry is gone or still ahead of the cursor |
| Server.Server.constructor | archke_server.c:41-66 | empty stores of four buckets and cursor 0 |
| Server.Server.SetExpireTime | archke_expire.c:19-35 | stores the clock plus the timeout as the deadline |
| Server.Server.RemoveExpireTime | archke_expire.c:37-39 | removes the deadline |
| Server.Server.IsExpired | archke_expire.c:41-53 | expired just if the clock is strictly after the deadline |
| Server.Server.Set | archke_commands.c:52-75 | the SET transition of both tables; an old deadline stays without EX |
| Server.Server.Get | archke_commands.c:82-103 | the GET transition and its reply, with lazy deletion from both tables |
| Server.Server.Exists | archke_commands.c:111-121 | tells whether the data table has the key |
| Server.Server.Del | archke_commands.c:127-140 | removes the key from both tables and tells whether it had a value |
| Server.Server.ActiveExpiryCallback | archke_server.c:441-452 | removes the visited entry from both tables just if it is due, keeps the scanned chain intact behind it, even when the removal starts a rehash, and leaves no key with a deadline and without a value |
| Server.Server.ExpireChain | archke_server.c:441-452 | over a whole chain, removes exactly its due keys although it deletes from the chain it follows |
| Server.Server.ExpireHalf | archke_kvstore_basic_hash.c:388-402 | one round of the do-while loop removes exactly the due keys of one new bucket and moves the cursor as the plain advance in the new table does |
| Server.Server.ExpireRefined | archke_kvstore_basic_hash.c:388-402 | the loop removes exactly the due keys of the two refining buckets and ends at the plain mode's next cursor |
| Server.Server.ActiveExpireScan | archke_kvstore_basic_hash.c:352-406 | a scan call with the deleting callback removes exactly the due keys of the cursor's bucket and returns the usual next cursor |
| Server.Server.ActiveExpiry | archke_server.c:486-504 | the tick's loop ends, and ends before cursor 0 only after a multiple of 16 calls whose clock reading is 50 ms or more after the first, with every reading before that below |
| Server.Server.ScanPosition | archke_server.c:494-504 | from cursor 0, n calls of a tick leave the n-th cursor in reversed order, and as many calls as the table has buckets leave 0 |
| Server.Server.SweptClean | archke_server.c:494-504 | a tick from cursor 0 to cursor 0 leaves no key that had expired at its first clock reading in either table |
| Server.Server.Cron | archke_server.c:480-508 | a tick is a possible run of housekeeping at one clock reading: the loop's scan calls, then a rehashing burst on each store; from cursor 0, with at most 16 buckets, it visits each bucket once, ends at cursor 0 and leaves no expired key |
| Protocol.ChunkingIsIrrelevant | archke_server.c:297-411 | two ways of cutting the same bytes into chunks, and the bytes in one piece, leave the parser loop in the same state with the same arguments |
| Protocol.RoundTrip | archke_server.c:309-402 | parsing the encoding of any non-empty list of byte strings completes with exactly that list |
| Protocol.PartialIsUnfinished | archke_server.c:309-402 | no proper beginning of an encoding completes a command or is an error |
| Protocol.FailsJustOn | archke_server.c:310-346 | a byte is an error just where a star or a dollar has to stand and it is another one |
| Protocol.MalformedFails | archke_server.c:338-346 | after any number of arguments, fewer than announced, a byte other than a dollar is an error |
| Protocol.ExampleRequest | protocol/ACSP:82 | the encoding of the example of SET in the protocol's description is the one given there |
| Protocol.ParseFeeds | archke_server.c:306-411 | the parser loop leaves the parser as all the bytes do |
| Protocol.ParseChunksFeeds | archke_server.c:297-411 | running the parser loop over successive chunks, with its early returns, its -1 and its absorbing states, leaves the parser that all bytes do one by one |
| Protocol.ParseStopsAtEnd | archke_server.c:384-410 | from any offset of a longer buffer the loop recognises the command; the index it returns is the end of the encoding just if the last argument is not empty |
| Protocol.ParseRunsOff | archke_server.c:306-410 | a buffer that ends within a command is consumed entirely |
| Protocol.SplitEncoded | archke_server.c:297-411 | a concatenation of encodings, each parsed from the index that the loop returned for the one before, splits into exactly its commands just when none but the last ends in an empty argument |
| QueryReaders.QueryReader.constructor | archke_server.c:86-143 | a parser at its start, empty arguments, a buffer of the default size |
| QueryReaders.QueryReader.ExpectSign | archke_server.c:310-346 | the next state, or the error state, just by whether the byte is the sign |
| QueryReaders.QueryReader.ArraySizeByte | archke_server.c:319-337 | accumulates the number of arguments; LF ends it |
| QueryReaders.QueryReader.StartBytes | archke_server.c:352-363 | allocates the argument at its announced size and records how much of it the buffer does not hold |
| QueryReaders.QueryReader.SkipEmpty | archke_server.c:366-374 | an argument of size zero is complete at once |
| QueryReaders.QueryReader.SizeByte | archke_server.c:347-383 | one byte of an argument's size takes the parser one step |
| QueryReaders.QueryReader.ArgByte | archke_server.c:384-401 | stores the byte in bounds, takes the parser one step, and tells whether the command is complete |
| QueryReaders.QueryReader.TakeByte | archke_server.c:306-407 | one byte takes the parser fields one step; the known remainder changes only when an argument's size is complete or its command is |
| QueryReaders.QueryReader.ProcessQueryBuffer | archke_server.c:297-411 | parser, arguments and returned number are those of the parser loop on values; the known remainder of a paused argument is never below what is missing, and exact after the read that saw its size |
| QueryReaders.QueryReader.ReadChunk | archke_event_handlers.c:69-109 | one read that completes at most one command takes the parser over its bytes; it ends the server just if an earlier byte was malformed |
| QueryReaders.QueryReader.ReadCommand | archke_event_handlers.c:69-109 | over successive reads of any sizes that fit the buffer, which may be replaced in between, parser and argument contents are those of all the bytes, whatever the sizes |
| QueryReaders.QueryReader.PausedArgument | archke_server.c:384-390 | within an argument all earlier ones are filled, and the next byte is in bounds |
| QueryReaders.QueryReader.Argument | archke_commands.c:54-55 | reads an argument of a complete command; a missing one is empty |
| QueryReaders.QueryReader.Receive | archke_event_handlers.c:74-100 | the buffer holds the bytes read, and the peak is kept |
| QueryReaders.QueryReader.ResizeQueryBuffer | archke_server.c:151-165 | after it the buffer holds the rest of a big argument, and never less than before |
| QueryReaders.QueryReader.ShrinkQueryBuffer | archke_server.c:172-200 | the buffer shrinks just if it is above the threshold, less than half used and larger than what is known to come, and to what capacity: never below the default size, nor below the known remainder |
| QueryReaders.ClientCron | archke_server.c:470-478 | the loop over all clients shrinks or keeps each query buffer as its own capacity, peak and known remainder say, and resets its peak |
| QueryReaders.QueryReader.ResetQueryBufferState | archke_server.c:206-209 | length and position are zero |
| QueryReaders.QueryReader.ResetCommand | archke_server.c:202-221 | the parser is at its start and every slot of the argument vector is empty |
| Replies.ReplyList.AppendToReply | archke_server.c:257-279 | the pending bytes grow by the data, in one more block at the end |
| Replies.ReplyList.AppendIntegerToReply | archke_server.c:281-295 | the pending bytes grow by the number in decimal, with a minus sign if it is negative |
| Replies.ReplyList.BeginWriting | archke_event_handlers.c:130 | writing starts at the first block |
| Replies.ReplyList.Gather | archke_event_handlers.c:17-26 | the vector handed to the socket holds exactly the remaining blocks, in order |
| Replies.ReplyList.FindEnd | archke_event_handlers.c:40-50 | finds the block in which a write ended, and how far into it |
| Replies.ReplyList.CutHead | archke_event_handlers.c:42-47 | the overwritten head block and the blocks behind the end are what the write left |
| Replies.ReplyList.Written | archke_event_handlers.c:40-53 | after a write of any part, what it took and what is left are what was pending; it is complete just when nothing is left; there are never more blocks than before |
| Replies.RestIsTail | archke_event_handlers.c:42-47 | the rewritten list holds the pending bytes after those written |
| Replies.ReplyList.ResetReplyList | archke_server.c:223-234 | the list is empty |
| Pipelining.ListenEncoded | protocol/ACSP:9-19 | a stream of encoded commands, cut off anywhere in the next one, holds exactly these commands |
| Pipelining.ParseListens | archke_server.c:297-411 | one call of the parser loop takes the bytes up to the end of the next command, up to a malformed byte, or all; it returns the end of the command or one more, -1, or one more than the length |
| Pipelining.PipelineListens | archke_event_handlers.c:102-127 | the loop executes exactly the commands in the bytes that it gives to the parser |
| Pipelining.NothingSkippedIff | archke_event_handlers.c:102-127 | the parser is given every byte of a buffer just when nothing is behind a malformed byte, there is at most one complete command, or two with nothing behind them, and the first, if anything follows it, does not end in an empty argument |
| Pipelining.ManageableIsExact | archke_event_handlers.c:102-127 | on such a buffer the loop executes exactly its commands and leaves the parser within the next one (sufficient, not necessary) |
| Pipelining.TailIsLost | archke_event_handlers.c:104 | whatever follows two commands is lost when it is no longer than the first |
| Conversations.RoundEnds | archke_event_handlers.c:103-127 | the loop ends with a complete command behind it and the parser at its start, or within a command |
| Conversations.AlwaysSound | archke_event_handlers.c:14-140 | at every point of every session, sent and pending bytes are the replies of the executed commands in order, the commands are those in the bytes parsed, replies wait only for a write or behind an unfinished command, there is something to write in writing mode, and the session ends only after a malformed request |
| Conversations.FedIsReceivedIff | archke_event_handlers.c:69-140 | over a whole session no received byte is skipped just when every read is one that the loop can take, with nothing behind a malformed byte |
| Conversations.WholeSession | archke_event_handlers.c:14-140 | in such a session the executed commands are exactly those sent, however cut into reads, and sent and pending bytes are their replies; nothing stays pending once no further command has begun |
| Conversations.ExecuteRuns | archke_event_handlers.c:111-118 | the commands of a read are a run of the timed store, and a possible one if their clock readings do not go back |
| Answers.ReadAllWritten | protocol/ACSP:3-44 | reading the bytes of any answers, one after the other, gives the answers in order |
| Histories.StoryIsRun | archke_event_handlers.c:69-140 | the tables of a session go through one possible run, of its own commands, those of other clients and the cron ticks |
| Histories.CommandInStory | archke_event_handlers.c:111-118 | every executed command of a session is one event of that run, with the key, value and seconds at their places among the arguments, executed on the tables at that point, and with the reply of the protocol |
| Histories.PositionsInOrder | archke_event_handlers.c:102-127 | the executed commands stand in that run in the order of execution |
| Histories.SessionGetsMatchReference | archke_commands.c:82-103 | every GET of a session, among any commands of others and any cron ticks, is answered with the encoded value that the reference server has at that point, or with null |
| Histories.SessionReadsItsWrite | archke_commands.c:52-103 | a GET after a SET of its key, with no SET or DEL of it by anyone in between, is answered with the value just as long as the deadline has not passed |
| Histories.SessionAnswers | archke_event_handlers.c:14-140 | a client that reads the bytes sent and pending finds one answer for each executed command, in order: OK, the reference server's value or null, the presence of the key, or the message |
| CommandProcedures.SetCommand | archke_commands.c:52-75 | argument 1 is mapped to argument 2, with the seconds of argument 4 as the deadline just if there are more than four arguments, and the reply is `+OK` |
| CommandProcedures.AppendBinaryString | archke_commands.c:96-99 | the four blocks of a value are its encoding |
| CommandProcedures.GetCommand | archke_commands.c:82-103 | the GET transition of argument 1, and the encoded live value, or null, as the reply |
| CommandProcedures.ExistsCommand | archke_commands.c:111-121 | the reply tells whether the key is in the data table, and nothing changes |
| CommandProcedures.DelCommand | archke_commands.c:127-140 | the key is gone from both tables, and the reply is 1 just if it had a value |
| CommandProcedures.EchoCommand | archke_commands.c:33-38 | the message as a simple string, and no change |
| CommandProcedures.ExecuteCommand | archke_event_handlers.c:111-118 | runs the procedure that the first argument names; it adds at most four reply blocks |
| Clients.Client.constructor | archke_event_handlers.c:157-170 | a new client waits for a first request, and its reply list is empty |
| Clients.Client.Reset | archke_server.c:236-241 | parser, buffer state, arguments and replies are as in a new client |
| Clients.Client.ParseNext | archke_event_handlers.c:103-104 | one parser call, and the position moved by the number it returned |
| Clients.Client.HandleRead | archke_event_handlers.c:69-140 | reading a chunk is the read step of the session; the write handler is registered just if the chunk does not end within a command, and the server ends just if the request was malformed before; each command adds at most four reply blocks |
| Clients.Client.HandleWrite | archke_event_handlers.c:14-67 | the accepted bytes are sent and the rest stays pending; the read handler is registered just when everything has been sent, with an empty reply list; there are never more blocks than before |
| Clients.Client.HandleWrites | archke_event_handlers.c:14-67 | any sequence of partial writes is the run of write steps of the session, with an empty reply list once reading resumes |
| Clients.Client.CronTick | archke_server.c:470-514 | a cron tick of the server may replace the query buffers of all clients; of a client's session it changes the tables only, by a possible run of housekeeping |

## Left out

- Sockets, epoll and kqueue, signals, logging, `main.c`, process exit: a read is a chunk of bytes that fits the buffer, a
  write takes any number of the pending bytes; failed reads and writes and the end of a connection are not modelled.
- Allocation failure, freeing, leaks and the ownership of copied keys and values.
- Overflow of machine integers in sizes and lengths; the scan, the sweeps and the cron job are modelled for tables of
  fewer than 2^64 buckets. A hash is any number, of which only the low 64 bits matter.
- More than 512 arguments and more than 1024 reply blocks: excluded by preconditions (`Clients.Fits`, `IOV_MAX`), since
  the code does not check them. Commands that the server does not know, among them the empty array, are excluded by
  `Conversations.Known`: the code follows a null pointer.
- CommandProcedures.ExecuteCommand: covers SET, GET, EXISTS, DEL and ECHO; SHUTDOWN, which exits, the dispatch table and
  `strtoul` are left out (the seconds of EX are an arbitrary function of the argument).
- Conversations.WholeSession: for sessions in which each read is one that the pipelining loop can take; beyond that the
  code loses bytes (`Conversations.FedIsReceivedIff`). For any number of commands, splitting is proved at the level of
  the parser (`Protocol.SplitEncoded`).
- Server.Server.ActiveExpireScan: takes the node after the visited one before the callback runs, where the C code reads
  it from the freed node; the scan is written out again with its callback, which a method cannot take as a parameter.
- KVStores.KVStore.IncrementalRehashing: how long a burst lasts is not bounded; the code does not bound it.
- EXISTS and DEL look at the data table, not at the live entries, as in the code.
- The timer list and the registration tables of the event loops; a client has one registered handler at a time, which
  the model keeps as its mode.
- The client registry: what others do to the tables between two events of a client is arbitrary
  (`Conversations.Happening.Elsewhere`), or any possible run (`Histories.Explains`).
- The built-in hash function, `rchkKVStoreFree`, and the scanner API that the tests mention and no source file defines.
- Blocks of replies hold their bytes as values, so that advancing into a block takes a slice instead of moving a pointer.
