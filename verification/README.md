# A model of the trading server's data structures and protocols

This project models the parts of a C++ trading server (and its Python back-test) in which data
lives and moves, and proves what those parts promise to their callers. Everything is checked by
the Dafny verifier: `dafny verify dfyconfig.toml`.

The files follow the program:

- **Transaction arena and undo log** (`mempool_spec`, `mempool_theorems`, `mempool`,
  `transaction_spec`, `transaction`, `rollback`). The arena is a doubly linked list of blocks with
  a roving tail; `mempool.dfy` is the code over real nodes and byte arrays, and it refines a
  value-level arena about which whole runs are reasoned: disjointness, replay after `free`,
  geometric growth, amortised walks. The undo stack keeps its records in that arena, and every
  record popped is still byte for byte what was pushed. `rollback.dfy` carries out the documented
  protocol on it: changes saved and made, records popped and undone, the database as it was.
- **Framing over a byte stream** (`net_spec`, `framing`, `boundary`, `bin_pack`, `receiver`, `sender`). A
  script says how the network answers each call: bytes arriving in any pieces, EAGAIN, EINTR,
  errors, a hang-up. From the client's typed lines to the receiver's queue, the payloads arrive in
  order and whole, and where a call stops is stated for every way of stopping.
- **Field descriptions** (`ring`, `descriptor`). Rings built by the comma operator, and the
  vector-based descriptor whose offsets drive struct/serial conversion.
- **Editable byte buffer** (`varmem`). In-place edits agree with operations on a bounded byte
  string, the hand-written backward copy included.
- **Configuration files** (`c_strings`, `config_line`, `config_file`, `config_print`). Trimming in
  place, the two line parsers, the reader and the lookup; then printing lines and files and
  reading them back.
- **Paths** (`os_path`), the **back-test** (`back_test`) and the **buy book** (`buy_book`,
  `book_arrival`).

`c_types.dfy` holds the machine types: bytes, 32-bit wrap-around, the signed reading of a word,
little-endian words, zero-terminated strings.

Conventions. The heap, the network and the loading of a file are parameters: a boolean says
whether malloc succeeds, a script what recv or send answers, an optional byte string what a file
holds. An empty string or byte string stands for a null pointer or a length of zero where the code
treats them alike. `assert` macros are read as in a release build, where the code goes on with its
own checks, except that an allocation asks for at least one byte. Sizes are those of a 64-bit
Linux (a block header is 32 bytes, an undo record 152). Prices and changes are real numbers.

## Findings

- An `alloc` that is refused can move the roving tail past blocks with room, so asking again after
  `free` may place later requests elsewhere: an oversize request (within 32 bytes of 2^32) leaves a
  block behind (`PoolTheorems.OversizeShifts`, `PoolTheorems.ReplayFails`), a failed malloc leaves
  the tail on the last block (`PoolTheorems.MallocFailureExample`). `PoolTheorems.ReplayExactly`
  has the exact condition.
- An undo record with a table or database name of 64 bytes or more points at the clipped name;
  `Rollback.UndoneExactly` says exactly when undoing one change still works,
  `Rollback.RestoredExactly` when a whole run is undone, and `Rollback.LongNameExample` is a row
  that stays. Its length field is a signed int: `RecordSpec.RecordRoundTrip`.
- A configuration value that ends in a slash loses it when a comment follows without a blank
  (`ConfigPrint.SlashExample`); `ConfigPrint.PairRoundTrip` has the exact condition. A value is
  cut to 1023 bytes before its leading blanks are dropped, so blanks count towards the limit.
- `mxx_varmem_insert` and `mxx_varmem_erase` count the bytes to move in a signed int, so a tail of
  2^31 bytes or more is not moved (`VarMems.VarMem.Insert`, `VarMems.VarMem.Erase`,
  `VarMems.LongTailExample`); `VarMems.VarMem.Perform` has the exact condition for one edit,
  `VarMems.VarMem.InsertThenErase` and `VarMems.VarMem.EraseThenInsert` say exactly when the laws
  of byte strings survive that.
- A field name of 64 bytes or more can pass the duplicate test and collide once clipped:
  `FieldDescriptors.CollidesExactly`, with `FieldDescriptors.CollisionExample`.
- A loop from `begin` to `end` over a descriptor without fields follows a null pointer; it does so
  exactly then (`FieldDescriptors.Walk`).
- Prices within the precision of each other can form a cycle, and then the book depends on the
  order of arrival (`BuyBooks.ToleranceExample`). `BookArrival.ArrivalExactly` has the exact
  condition.
- After a failed allocation or a receive error inside a frame `do_read_data` leaves the connection
  open although the stream is no longer at a frame boundary. `Boundary.OffBoundaryExactly` says
  for which scripts, `Boundary.RefusedExample` and `Boundary.FailedExample` are two of them.
- Where the code and its comments disagree the code is followed: `mempool_remove` answers the
  successor of the removed block, its comment says the block itself. The exception is the ring
  constructor, which sets the pointers inside its field record instead of its own; the model does
  what the note at rtti_def.h:133 requires.

## Model

| member | source | states |
|---|---|---|
| MemPools.Block.Claim | trunk/2_source/mx_project/mxx_fastdb/mdb_transaction/mdb_transac_mem.h:73-82 | answers "no room" exactly when fewer than n bytes are idle, and then changes nothing; otherwise the n bytes after the used part are handed out, are zero, and no byte in use before changes |
| MemPools.Insert | trunk/2_source/mx_project/mxx_fastdb/mdb_transaction/mdb_transac_mem.h:108-140 | splicing before or after a node of a doubly linked list (or into an empty one) gives a well-formed doubly linked list with the node at that place |
| MemPools.Remove | trunk/2_source/mx_project/mxx_fastdb/mdb_transaction/mdb_transac_mem.h:158-172 | the list without the node is well formed again, the node stands alone, and its old successor is answered |
| MemPools.AppendLast | trunk/2_source/mx_project/mxx_fastdb/mdb_transaction/mdb_transac_mem.h:143-156 | from any node of the list, the new node ends up last and the list stays well formed |
| MemPools.MemPool.constructor | trunk/2_source/mx_project/mxx_fastdb/mdb_transaction/mdb_transac_mem.h:189-203 | a new arena is empty, its first block at least 32 bytes |
| MemPools.MemPool.CheckIdleSize | trunk/2_source/mx_project/mxx_fastdb/mdb_transaction/mdb_transac_mem.h:251-267 | the heap loop moves the tail to the same block, with the same answer, as the value-level walk, and keeps the list well formed; the count of assignments that set the tail to another block is the number of steps TailWalksOnce bounds |
| MemPools.MemPool.NextSize | trunk/2_source/mx_project/mxx_fastdb/mdb_transaction/mdb_transac_mem.h:272-285 | the size asked of malloc is header plus the capacity of the value-level growth rule, with every 32-bit sum wrapped as in C |
| MemPools.MemPool.AppendMemblock | trunk/2_source/mx_project/mxx_fastdb/mdb_transaction/mdb_transac_mem.h:270-304 | the block list grows by one unused block at the end exactly when malloc succeeds; bytes handed out stay |
| MemPools.MemPool.Alloc | trunk/2_source/mx_project/mxx_fastdb/mdb_transaction/mdb_transac_mem.h:225-237 | refines the value-level arena on the heap: same region, same blocks, list still well formed; the bytes handed out before are untouched and the new ones are zero; its tail walk takes the steps counted on values |
| MemPools.MemPool.Free | trunk/2_source/mx_project/mxx_fastdb/mdb_transaction/mdb_transac_mem.h:239-248 | every block is emptied, no block is lost, and the tail is back at the head |
| MemPools.MemPool.InMemory | trunk/2_source/mx_project/mxx_fastdb/mdb_transaction/mdb_transac_mem.h:73-82 | the byte strings the other contracts speak of are what lies in the block buffers |
| PoolSpec.CheckIdle | trunk/2_source/mx_project/mxx_fastdb/mdb_transaction/mdb_transac_mem.h:251-267 | the walk never goes back, changes no block, stops only at a block with room, and otherwise ends on the last block |
| PoolTheorems.FoundExactly | trunk/2_source/mx_project/mxx_fastdb/mdb_transaction/mdb_transac_mem.h:251-267 | the answer is true exactly when some block from the tail on has room, for every size an unsigned int can hold |
| PoolTheorems.CapacityFits | trunk/2_source/mx_project/mxx_fastdb/mdb_transaction/mdb_transac_mem.h:270-285 | a new block is large enough for the request exactly when request plus header does not overflow 32 bits |
| PoolTheorems.ServedExactly | trunk/2_source/mx_project/mxx_fastdb/mdb_transaction/mdb_transac_mem.h:225-304 | alloc answers null exactly when the request overflows 32 bits with its header, or no block from the tail on has room and malloc fails |
| PoolTheorems.AllocGrows | trunk/2_source/mx_project/mxx_fastdb/mdb_transaction/mdb_transac_mem.h:73-82 | no alloc shrinks or moves anything; the region it answers has the size asked for and lies behind everything used before |
| PoolTheorems.RunRegions | trunk/2_source/mx_project/mxx_fastdb/mdb_transaction/mdb_transac_mem.h:225-304 | over any run of requests each region has the size asked for, lies inside its block and avoids what was used before the run |
| PoolTheorems.RunDisjoint | trunk/2_source/mx_project/mxx_fastdb/mdb_transaction/mdb_transac_mem.h:73-82 | no two regions handed out since the last free share a byte, in any run |
| PoolTheorems.ReplayExactly | trunk/2_source/mx_project/mxx_fastdb/mdb_transaction/mdb_transac_mem.h:225-304 | for any run of requests from an empty or freed arena: free, then asking again for what was served gives the same regions in the same order without the heap, exactly when the run skipped no block that could have served; the replay then ends with the same blocks, the tail on the one that served last |
| PoolTheorems.Starts | trunk/2_source/mx_project/mxx_fastdb/mdb_transaction/mdb_transac_mem.h:239-248 | free leaves an empty or freed arena as it is: the arenas a run may start in |
| PoolTheorems.Replay | trunk/2_source/mx_project/mxx_fastdb/mdb_transaction/mdb_transac_mem.h:225-267 | in particular the replay is exact and ends in the very same arena when nothing was refused, and from the empty arena also when every request fits 32 bits with its header |
| PoolTheorems.OversizeShifts | trunk/2_source/mx_project/mxx_fastdb/mdb_transaction/mdb_transac_mem.h:270-291 | a refused oversize request still leaves a block behind, so a later request that would have fitted lands elsewhere: one way a run comes to skip a block |
| PoolTheorems.ReplayFails | trunk/2_source/mx_project/mxx_fastdb/mdb_transaction/mdb_transac_mem.h:225-291 | a run of three requests, the middle one oversize, that a replay after free places differently |
| PoolTheorems.MallocFailureExample | trunk/2_source/mx_project/mxx_fastdb/mdb_transaction/mdb_transac_mem.h:251-291 | in a freed arena of two blocks a request that malloc refuses moves the tail, so the next one skips a block with room |
| PoolTheorems.NewBlockExactly | trunk/2_source/mx_project/mxx_fastdb/mdb_transaction/mdb_transac_mem.h:270-291 | a block that a request appends is as large as the request or as twice the last block (the first one as the initial size less 32), whichever is more, with 32-bit wrap |
| PoolTheorems.ReachableTight | trunk/2_source/mx_project/mxx_fastdb/mdb_transaction/mdb_transac_mem.h:270-291 | in every arena reached by any mix of alloc and free, a block that no request forced is exactly twice its predecessor, the first one the initial size less 32 |
| PoolTheorems.ReachableDoubles | trunk/2_source/mx_project/mxx_fastdb/mdb_transaction/mdb_transac_mem.h:280-282 | in every arena reached by any mix of alloc and free, a block is at least twice its predecessor exactly while header plus double still fits in 32 bits |
| PoolTheorems.ReachableCapacity | trunk/2_source/mx_project/mxx_fastdb/mdb_transaction/mdb_transac_mem.h:278-283 | an arena reached by any mix of alloc and free whose k blocks, the last excepted, have doubles that fit in 32 bits with the header holds at least 2^k - 1 times its first block |
| PoolTheorems.GeometricCapacity | trunk/2_source/mx_project/mxx_fastdb/mdb_transaction/mdb_transac_mem.h:278-283 | the sum behind it: k doubling blocks hold at least 2^k - 1 times the first, and the last at least 2^(k-1) times |
| PoolTheorems.TailWalksOnce | trunk/2_source/mx_project/mxx_fastdb/mdb_transaction/mdb_transac_mem.h:256-264 | between two frees all the tail walks together, counted as the heap loop counts them, take at most (blocks - 1) steps |
| RecordSpec.RecordRoundTrip | trunk/2_source/mx_project/mxx_fastdb/mdb_transaction/mdb_transaction.cpp:56-63 | an undo record reads back as pushed, names clipped to 63 bytes, exactly when the data is shorter than 2^31 bytes (its length field is a signed int) |
| RecordSpec.RecordExactly | trunk/2_source/mx_project/mxx_fastdb/mdb_transaction/mdb_transaction.cpp:56-63 | an undo record reads back unchanged, names included, exactly when no name has more than 63 bytes and the data is shorter than 2^31 bytes |
| RecordSpec.Fields | trunk/2_source/mx_project/mxx_fastdb/mdb_transaction/mdb_transaction.h:22-31 | where the fields of the 152-byte record lie |
| Transactions.SaveRecord | trunk/2_source/mx_project/mxx_fastdb/mdb_transaction/mdb_transaction.cpp:52-63 | whether or not the arena grows, the bytes of every earlier record stay and the new region holds exactly the encoded record |
| Transactions.Transaction.constructor | trunk/2_source/mx_project/mxx_fastdb/mdb_transaction/mdb_transaction.cpp:6-9 | a new transaction has no record and no arena |
| Transactions.Transaction.PushRecord | trunk/2_source/mx_project/mxx_fastdb/mdb_transaction/mdb_transaction.cpp:35-69 | the five answers and when each is given; with data, an arena and memory it is 0 exactly for the three operation codes (the characters 0, 1 and 2), and every other code is refused; an accepted record goes on top, every refused push leaves the stack alone, and refused arguments leave the arena alone; all records issued so far stay intact in memory |
| Transactions.Transaction.PopRecord | trunk/2_source/mx_project/mxx_fastdb/mdb_transaction/mdb_transaction.cpp:71-80 | the record pushed last and not yet popped, whose bytes in memory are still exactly those pushed, whatever the arena did since; null on an empty stack |
| Transactions.Transaction.ClearRecords | trunk/2_source/mx_project/mxx_fastdb/mdb_transaction/mdb_transaction.cpp:82-87 | the stack is empty and the arena is reset with its blocks kept |
| Rollback.ApplicableExactly | trunk/2_source/mx_project/mxx_fastdb/mdb_transaction/mdb_transaction.cpp:35-42 | which changes can be made and saved, code by code: insert under a free key, update and delete under a used one, with a row of 1 to 2^31 - 1 bytes |
| Rollback.RowRolledBack | trunk/2_source/mx_project/mxx_fastdb/mdb_transaction/mdb_transaction.h:7-19 | for any database and any names of at most 63 bytes: deleting a row removes it, updating replaces it, inserting adds it, and each time the rollback gives back the database |
| Rollback.RestoredExactly | trunk/2_source/mx_project/mxx_fastdb/mdb_transaction/mdb_transaction.h:7-10 | popping all records and undoing each restores the database after a run of inserts, updates and deletes exactly when every change under a name of 64 bytes or more is made up for: its row ends as it began, and the first record for its clipped name puts there what was there |
| Rollback.RollBackRestores | trunk/2_source/mx_project/mxx_fastdb/mdb_transaction/mdb_transaction.h:7-9 | popping all records and undoing each restores the database after any run of inserts, updates and deletes whose names fit |
| Rollback.UndoneExactly | trunk/2_source/mx_project/mxx_fastdb/mdb_transaction/mdb_transaction.cpp:57-58 | one change is undone exactly when both names are shorter than 64 bytes, or it was an update that changed nothing under a clipped name that holds the same row |
| Rollback.LongNameExample | trunk/2_source/mx_project/mxx_fastdb/mdb_transaction/mdb_transaction.cpp:57-58 | a row inserted under a table name of 64 bytes is still there after its undoing |
| Rollback.MakeChange | trunk/2_source/mx_project/mxx_fastdb/mdb_transaction/mdb_transaction.cpp:35-69 | a change is made exactly when its record was pushed, on top of those before it; with memory it is made |
| Rollback.MakeChanges | trunk/2_source/mx_project/mxx_fastdb/mdb_transaction/mdb_transaction.h:7-9 | the changes made are the first ones, up to the first that could not be saved, with their records on the stack in order |
| Rollback.UndoChanges | trunk/2_source/mx_project/mxx_fastdb/mdb_transaction/mdb_transaction.h:10 | popping the records from the arena and undoing each is the modelled rollback of the run, and the records below are untouched |
| Rollback.ChangeAndRollBack | trunk/2_source/mx_project/mxx_fastdb/mdb_transaction/mdb_transaction.h:7-10 | carrying out changes on a transaction and rolling back restores the records always, and the database exactly when the changes made are restorable, also when memory ran out on the way; with names that fit it always does |
| Framing.FrameLayout | trunk/2_source/common_utils/mxx_bin_pack.cpp:100-122 | a frame is the payload behind four bytes that hold its length, the lowest first |
| BinPacks.BinPack.constructor | trunk/2_source/common_utils/mxx_bin_pack.cpp:17-40 | the capacity is the length asked for, forced into 1..10240, and nothing is stored |
| BinPacks.BinPack.Clear | trunk/2_source/common_utils/mxx_bin_pack.cpp:50-64 | nothing is stored, and exactly the bytes that held data are zeroed |
| BinPacks.BinPack.Append | trunk/2_source/common_utils/mxx_bin_pack.cpp:67-83 | as much of the data as fits goes behind what is stored; the answer is that count, -1 for no data, -2 for a full packet; the length fields stay consistent |
| BinPacks.BinPack.Packet | trunk/2_source/common_utils/mxx_bin_pack.cpp:100-122 | the packet in memory is the length word followed by what is stored |
| BinPacks.AppendsFill | trunk/2_source/common_utils/mxx_bin_pack.cpp:67-90 | any run of appends stores the first min(capacity, total) bytes of the concatenated input, and the counts answered add up to what was added |
| NetSpec.RecvFacts | trunk/2_source/common_utils/mxx_socket_event.cpp:76 | recv loses, repeats or reorders no byte for any script of network events |
| NetSpec.ReadBodyFacts | trunk/2_source/common_utils/mxx_socket_event.cpp:74-105 | the receive loop takes exactly the bytes it stores, never more than asked for, and answers 0 exactly when it has them all |
| NetSpec.ReadEventExactly | trunk/2_source/common_utils/mxx_socket_event.cpp:25-119 | success exactly when a header with a length in 1..10240 and exactly that many bytes were consumed, which are the packet; otherwise no buffer is kept; never a byte of the next frame is consumed |
| NetSpec.ReadEventCodes | trunk/2_source/common_utils/mxx_socket_event.cpp:25-119 | which answer is given when: -1001 or -1002 without a whole header, -1003 for a length below 1, -1004 above 10240, -1005 for refused memory, else the answer of the receive loop |
| Framing.WireInjective | trunk/2_source/common_utils/mxx_bin_pack.cpp:99-110 | two lists of payloads with the same byte stream are equal: the framing is uniquely decodable |
| Framing.DoReadInOrder | trunk/2_source/common_utils/thread_recv.cpp:229-310 | one call on a framed stream queues a prefix of the payloads in order; stopped for lack of data it is at a frame boundary, stopped by a failed allocation, receive error or hang-up it is strictly inside the next frame |
| Framing.SessionInOrder | trunk/2_source/common_utils/thread_recv.cpp:229-310 | any fragmentation and any number of calls: the queue is a prefix of the payloads in order, and while nothing fails inside a frame the unread stream is exactly the frames not yet queued |
| Framing.DoReadDrains | trunk/2_source/common_utils/thread_recv.cpp:229-310 | when whole frames have arrived and nothing fails, one call queues all of them and leaves nothing |
| Boundary.FailsExactly | trunk/2_source/common_utils/mxx_socket_event.cpp:74-105 | the receive loop ends in an error exactly when the script fails a call before all its bytes have come, with no hang-up before that |
| Boundary.StrandsExactly | trunk/2_source/common_utils/mxx_socket_event.cpp:45-119 | a packet whose header is in the buffer ends in a failed allocation or a receive error exactly when the header is read and then malloc refuses, or a call for the body fails too early |
| Boundary.OffBoundaryExactly | trunk/2_source/common_utils/thread_recv.cpp:229-310 | a call leaves the connection open inside a frame exactly when one of its rounds meets such a packet |
| Boundary.ClosesExactly | trunk/2_source/common_utils/thread_recv.cpp:229-310 | on any stream a call asks for the connection to be closed exactly when one of its rounds finds it closed or failed at the peek, or closed within the packet |
| Boundary.OnBoundaryWhenQuiet | trunk/2_source/common_utils/thread_recv.cpp:229-310 | if the script fails no call and malloc refuses nothing, an open connection is at a frame boundary |
| Boundary.RefusedExample | trunk/2_source/common_utils/thread_recv.cpp:265-293 | one frame whose memory is refused: nothing is queued, the connection stays open and the payload stays unread |
| Boundary.FailedExample | trunk/2_source/common_utils/thread_recv.cpp:265-293 | one frame with a receive error after its first byte: the same, with that byte lost |
| Receiver.ReadInto | trunk/2_source/common_utils/mxx_socket_event.cpp:73-105 | the loop over recv fills the packet body as the value-level loop does, byte for byte |
| Receiver.ReadEvent | trunk/2_source/common_utils/mxx_socket_event.cpp:13-129 | same bytes consumed and same answer as the value-level reader; on success the info struct holds a new buffer with the payload and its three lengths, otherwise no buffer |
| Receiver.RecvQue.Push | trunk/2_source/common_utils/thread_recv.cpp:63-76 | the packet goes to the back of the queue; a null buffer is ignored |
| Receiver.RecvQue.Pop | trunk/2_source/common_utils/thread_recv.cpp:78-94 | the oldest packet, or null when there is none |
| Receiver.DoReadData | trunk/2_source/common_utils/thread_recv.cpp:229-310 | refines the value-level reader: same stream left over, same close flag, and its payloads appended to the queue in order |
| Sender.Peer.SocketSend | trunk/2_source/common_utils/netsocket/mxx_net_socket.cpp:270-300 | for any partial sends, EAGAINs and errors: what goes on the wire is the prefix of the buffer that the answer counts; where the call stops and what it answers there; the answer is the length exactly when the script lets the last byte out in time |
| Sender.SendStops | trunk/2_source/common_utils/netsocket/mxx_net_socket.cpp:277-299 | every call stops at the answer that takes the last byte, at the fourth EAGAIN (answering what went out), at the first error (answering -1), and nowhere else |
| Sender.SentExactly | trunk/2_source/common_utils/netsocket/mxx_net_socket.cpp:286-291 | a buffer goes out whole exactly when some answer takes its last byte with no error and at most three EAGAINs before it |
| Sender.CompleteExactly | trunk/2_source/common_utils/netsocket/mxx_net_socket.cpp:293-299 | the answer equals the length exactly when every byte went out |
| Sender.AllSentExactly | trunk/2_source/tools/client_tool/client.cpp:60-85 | every send of the client is complete exactly when the script lets out each frame in turn |
| Sender.TransmitExactly | trunk/2_source/tools/client_tool/client.cpp:60-85 | the wire carries the frames of all lines exactly when every send was complete |
| Sender.PartialSend | trunk/2_source/tools/client_tool/client.cpp:77-85 | a frame cut short by a fourth EAGAIN stays cut short: the next frame follows right behind |
| Sender.FailedSend | trunk/2_source/tools/client_tool/client.cpp:79-82 | after an error the client stops, and nothing of the later lines is sent |
| Sender.ClientLoop | trunk/2_source/tools/client_tool/client.cpp:60-85 | clear, append and send over the typed lines put exactly the modelled stream on the wire and report completeness |
| Sender.EndToEnd | trunk/2_source/tools/client_tool/client.cpp:70-75 | if the answers to send let out each frame in turn, the receiver has queued a prefix of the lines in order after any calls on any part of the stream, and all of them once nothing is left unread |
| FieldRing.Field.constructor | trunk/2_source/common_utils/rtti_proto/rtti_def.h:132-133 | as the note on the comma operator requires, a new description is a ring of its own; its name is cut to 63 bytes |
| FieldRing.Comma | trunk/2_source/common_utils/rtti_proto/rtti_def.h:134-142 | joining two disjoint rings gives one ring that lists the left ring, then the right one; on two nodes of one ring the same assignments cut it in two |
| FieldRing.Describe | trunk/2_source/common_utils/rtti_proto/rtti_def.h:35-39 | a chain of commas gives one ring that lists the fields in declaration order |
| FieldRing.RingOfTwo | trunk/2_source/common_utils/rtti_proto/rtti_def.h:134-142 | a concatenation is a ring exactly when both parts are chains, disjoint, and joined end to start both ways |
| FieldRing.Rotated | trunk/2_source/common_utils/rtti_proto/rtti_def.h:122-125 | a ring can be traversed from any of its nodes |
| FieldRing.FindByName | trunk/2_source/common_utils/rtti_proto/rtti_def.cpp:21-38 | ends, and answers the first field of that name in ring order from the start, null when there is none or the name is empty |
| FieldRing.FindByIndex | trunk/2_source/common_utils/rtti_proto/rtti_def.cpp:41-55 | ends, and answers the first field with that index in ring order, null when there is none |
| FieldRing.FoundFromAnywhere | trunk/2_source/common_utils/rtti_proto/rtti_def.cpp:21-38 | with distinct names the answer does not depend on the node the search starts from |
| FieldDescriptors.Descriptor.AppendAt | trunk/2_source/common_utils/rtti_proto/rtti_field_descriptor.cpp:24-61 | the three refusals and when each is given, leaving the list alone; otherwise one field with the next index, the type, the first 63 bytes of the name, the offsets, size and count given goes to the end |
| FieldDescriptors.Descriptor.Append | trunk/2_source/common_utils/rtti_proto/rtti_field_descriptor.cpp:63-76 | the same, with the serial offset where the last field ends in the struct |
| FieldDescriptors.Descriptor.FindByName | trunk/2_source/common_utils/rtti_proto/rtti_field_descriptor.cpp:139-149 | the first field of that name, none exactly when there is none |
| FieldDescriptors.Descriptor.FindByIndex | trunk/2_source/common_utils/rtti_proto/rtti_field_descriptor.cpp:117-121 | the field at that index, none exactly outside the list |
| FieldDescriptors.CollidesExactly | trunk/2_source/common_utils/rtti_proto/rtti_field_descriptor.cpp:43-52 | an append makes two stored names equal exactly when its name has 64 bytes or more and the first 63 of them are taken: the test compares the whole name, the list stores 63 bytes of it |
| FieldDescriptors.CollisionExample | trunk/2_source/common_utils/rtti_proto/rtti_field_descriptor.cpp:43-52 | names of 63 and of 64 letters are both accepted and stored alike |
| FieldDescriptors.AppendAllSizeOnly | trunk/2_source/common_utils/rtti_proto/rtti_field_descriptor.cpp:63-76 | after any run of size-only appends, refused ones included, each serial offset is where the field before ends in the struct |
| FieldDescriptors.AppendedRoundTrip | trunk/2_source/common_utils/rtti_proto/rtti_field_descriptor.cpp:63-179 | fields appended in struct order by any such run survive struct to serial and back |
| FieldDescriptors.AppendedExactly | trunk/2_source/common_utils/rtti_proto/rtti_field_descriptor.cpp:24-76 | after any run of size-only appends the i-th field has index i and the type, name, struct offset and size of the i-th accepted request, and its serial offset is where the request before ends in the struct |
| FieldDescriptors.RequestedRoundTrip | trunk/2_source/common_utils/rtti_proto/rtti_field_descriptor.cpp:24-179 | if the accepted requests came in struct order, the bytes of each one that ends inside the buffers lie at its serial offset after the conversion to serial, and are back in place after the conversion to struct |
| FieldDescriptors.CoveredByRequest | trunk/2_source/common_utils/rtti_proto/rtti_field_descriptor.cpp:182-197 | the bytes that clear_struct zeroes are those of the accepted requests that end inside the buffer |
| FieldDescriptors.OffsetsBelowExactly | trunk/2_source/common_utils/rtti_proto/rtti_field_descriptor.cpp:63-76 | serial offsets never exceed struct offsets exactly when the fields came in struct order without overlap |
| FieldDescriptors.SerialOrdered | trunk/2_source/common_utils/rtti_proto/rtti_field_descriptor.cpp:63-76 | for such fields the serial ranges are ordered and disjoint |
| FieldDescriptors.InOrderBounded | trunk/2_source/common_utils/rtti_proto/rtti_field_descriptor.cpp:152-179 | for such fields no conversion reads or writes outside either buffer, whatever the buffer sizes |
| FieldDescriptors.Descriptor.StructToSerial | trunk/2_source/common_utils/rtti_proto/rtti_field_descriptor.cpp:167-179 | the in-place loop produces the specified serial bytes |
| FieldDescriptors.Descriptor.SerialToStruct | trunk/2_source/common_utils/rtti_proto/rtti_field_descriptor.cpp:152-164 | the in-place loop produces the specified struct bytes |
| FieldDescriptors.RoundTrip | trunk/2_source/common_utils/rtti_proto/rtti_field_descriptor.cpp:152-179 | struct to serial and back restores every field that ends inside all three buffers, padding in the struct or not, whatever the target buffers held |
| FieldDescriptors.PaddingKept | trunk/2_source/common_utils/rtti_proto/rtti_field_descriptor.cpp:152-164 | bytes of the struct that belong to no converted field keep their value |
| FieldDescriptors.FieldIterator.Current | trunk/2_source/common_utils/rtti_proto/rtti_def.h:603-610 | the field at the cursor, null outside the list |
| FieldDescriptors.FieldIterator.Advance | trunk/2_source/common_utils/rtti_proto/rtti_def.h:614-620 | one index on, and the end mark behind the last |
| FieldDescriptors.Walk | trunk/2_source/common_utils/rtti_proto/rtti_def.h:592-620 | a loop from begin to end reaches every field once, in order, and follows a null pointer exactly when there is no field |
| FieldDescriptors.Descriptor.ClearStruct | trunk/2_source/common_utils/rtti_proto/rtti_field_descriptor.cpp:182-197 | exactly the bytes of fields that end inside the buffer become zero |
| VarMems.VarMem.constructor | trunk/2_source/common_utils/mxx_mem.h:33-45 | a new zeroed buffer with nothing in it, whose usable size is the given size in 32 bits |
| VarMems.VarMem.Create | trunk/2_source/common_utils/mxx_mem.h:33-45 | null exactly for size 0 or when malloc fails, else such a buffer |
| VarMems.VarMem.Clear | trunk/2_source/common_utils/mxx_mem.h:67-71 | the view is empty |
| VarMems.VarMem.Append | trunk/2_source/common_utils/mxx_mem.h:164-174 | the view and the answer are those of appending to a bounded byte string; data that does not fit changes nothing and gets the refusal, which one other length, 2^32 - 101, looks like |
| VarMems.AppendLaw | trunk/2_source/common_utils/mxx_mem.h:164-174 | an accepted append keeps the old bytes in front, ends in the data, counts it and is the insertion at the end; refused data leaves everything and answers -101 |
| VarMems.AppendsConcatenate | trunk/2_source/common_utils/mxx_mem.h:164-174 | a run of appends stores the pieces that fit when their turn comes, one behind the other |
| VarMems.VarMem.Insert | trunk/2_source/common_utils/mxx_mem.h:183-206 | the overlapping backward copy yields prefix, data, suffix; for tails of 2^31 bytes or more, whose count wraps, what it yields instead; refusals as for append |
| VarMems.VarMem.CopyUp | trunk/2_source/common_utils/mxx_mem.h:192-196 | the byte loop from the back copies each byte of the range before it is overwritten |
| VarMems.VarMem.Fill | trunk/2_source/common_utils/mxx_mem.h:217-232 | the view is overlaid from the (clamped) position with as many bytes as fit, growing if they stick out |
| VarMems.VarMem.Erase | trunk/2_source/common_utils/mxx_mem.h:240-264 | the (clamped) range is cut out; for tails of 2^31 bytes or more, what happens instead |
| VarMems.VarMem.Replace | trunk/2_source/common_utils/mxx_mem.h:274-292 | the view is overlaid with as much of the data as fits; behind the end nothing happens |
| VarMems.VarMem.Skip | trunk/2_source/common_utils/mxx_mem.h:302-310 | the view grows over what the buffer already holds, as far as the size allows |
| VarMems.FillLaw | trunk/2_source/common_utils/mxx_mem.h:217-232 | filling inside the data is replacing by copies of the byte, filling behind it is appending as many as fit |
| VarMems.EraseLaw | trunk/2_source/common_utils/mxx_mem.h:240-264 | erasing takes out the bytes from the position on, as many as there are |
| VarMems.ReplaceLaw | trunk/2_source/common_utils/mxx_mem.h:274-292 | replacing keeps all bytes outside the range and puts the data there as far as it fits |
| VarMems.ClearLaw | trunk/2_source/common_utils/mxx_mem.h:67-71 | clearing is erasing everything |
| VarMems.VarMem.Perform | trunk/2_source/common_utils/mxx_mem.h:67-292 | any edit does to the view what it does to a bounded byte string exactly when it moves fewer than 2^31 bytes, or the bytes it fails to move are there already; what it does otherwise |
| VarMems.VarMem.PerformAll | trunk/2_source/common_utils/mxx_mem.h:67-292 | every step of any run of edits has the effect stated for it, and a run whose edits all move fewer than 2^31 bytes acts as on a bounded byte string |
| VarMems.LongTailExample | trunk/2_source/common_utils/mxx_mem.h:240-264 | erasing the first of 2^31 + 1 bytes leaves it in place and drops the last one |
| VarMems.SmallShort | trunk/2_source/common_utils/mxx_mem.h:194-256 | in a buffer below 2^31 bytes every edit of every run is such an edit |
| VarMems.VarMem.InsertThenErase | trunk/2_source/common_utils/mxx_mem.h:183-264 | erasing what was just inserted restores the view exactly when the tail is below 2^31 bytes or the data was already there |
| VarMems.VarMem.EraseThenInsert | trunk/2_source/common_utils/mxx_mem.h:183-264 | erasing and inserting as many bytes amounts to replacing them, and restores the view when they are the bytes erased, exactly when the tail is below 2^31 bytes or the byte that erase zeroes was zero |
| CStrings.TrimLeftBlank | trunk/2_source/mxx_ctp/common/mxx_string.h:51-63 | the buffer holds the old string without its leading blanks; nothing behind its new end is touched |
| CStrings.TrimRightBlank | trunk/2_source/mxx_ctp/common/mxx_string.h:65-74 | exactly the trailing blanks become zeros |
| CStrings.TrimBlank | trunk/2_source/mxx_ctp/common/mxx_string.h:76-84 | the buffer holds the trimmed string; nothing behind the old string is touched |
| CStrings.TrimExactly | trunk/2_source/mxx_ctp/common/mxx_string.h:76-84 | trimming any string put between blanks gives that string back, if it has no blank at either end |
| CStrings.TrimParts | trunk/2_source/mxx_ctp/common/mxx_string.h:76-84 | every string is its trimmed form between blanks |
| ConfigLines.CommentInPrefix | trunk/2_source/mxx_ctp/common/ConfigFile.cpp:11-19 | limiting the search to a prefix finds the comment exactly when it lies wholly inside it |
| ConfigLines.RFindNonBlank | trunk/2_source/mxx_ctp/common/ConfigFile.cpp:39-48 | the position of the last byte that is no blank, none exactly when all are blank |
| ConfigLines.IsComment | trunk/2_source/mxx_ctp/common/ConfigFile.cpp:51-63 | true exactly when the first byte that is no blank starts "//" |
| ConfigLines.CommentIsOther | trunk/2_source/mxx_ctp/common/ConfigFile.cpp:352-377 | a comment line is neither a section nor a pair, so the early skip only saves work |
| ConfigLines.IsSection | trunk/2_source/mxx_ctp/common/ConfigFile.cpp:65-103 | true exactly when the text without line ending, comment and surrounding blanks is a bracketed, non-empty name, which is then in the buffer, cut to its size |
| ConfigLines.SplitProfileValue | trunk/2_source/mxx_ctp/common/ConfigFile.cpp:122-196 | the answer, and for success the trimmed key and value around the first equals sign of the line without ending and comment, each cut to its buffer before trimming; both strings are empty for every refusal |
| ConfigLines.SplitExamples | trunk/2_source/mxx_ctp/common/ConfigFile.cpp:131-172 | one line for each of the six refusals |
| ConfigLines.SplitFinds | trunk/2_source/mxx_ctp/common/ConfigFile.cpp:131-172 | the answer is 0 exactly when the uncommented text has an equals sign with a key before it |
| ConfigFiles.ConfigFile.constructor | trunk/2_source/mxx_ctp/common/ConfigFile.cpp:207-212 | a reader at the start of the content |
| ConfigFiles.ConfigFile.ReadLine | trunk/2_source/mxx_ctp/common/ConfigFile.cpp:346 | takes the bytes up to a line feed, at most 2047 of them, as the next line, also at the end of the file; refuses only when nothing is left |
| ConfigFiles.ConfigFile.GetNextOption | trunk/2_source/mxx_ctp/common/ConfigFile.cpp:320-384 | the next section or pair of the file with its strings in the output buffers, none exactly when no line is left that is one; the rest of the file is left to read |
| ConfigFiles.ConfigFile.ReadProfileString | trunk/2_source/mxx_ctp/common/ConfigFile.cpp:247-308 | found exactly when the search over all the lines finds a value, whose bytes are then in the buffer as far as they fit, with zeros behind them; otherwise an empty string |
| ConfigFiles.SearchExactly | trunk/2_source/mxx_ctp/common/ConfigFile.cpp:269-307 | the search answers the value of the first matching key inside the first section of that name and before the next header; none exactly when there is no such line |
| ConfigFiles.HitUnique | trunk/2_source/mxx_ctp/common/ConfigFile.cpp:269-307 | there is at most one such line |
| ConfigFiles.EmptyNotFound | trunk/2_source/mxx_ctp/common/ConfigFile.cpp:252-256 | an empty section or key name matches no line of any file, so the early return answers what the search would |
| ConfigPrint.PairRoundTrip | trunk/2_source/mxx_ctp/common/ConfigFile.cpp:122-196 | key and value printed with any blanks, comment and line ending read back exactly when they fit, the value does not end in a slash right before a comment, and the line does not look like a section header |
| ConfigPrint.SlashExample | trunk/2_source/mxx_ctp/common/ConfigFile.cpp:148-182 | the line "k=a/" followed at once by the comment "//c" reads back as value "a": the documented syntax is not enough |
| ConfigPrint.SectionRoundTrip | trunk/2_source/mxx_ctp/common/ConfigFile.cpp:65-103 | a printed section header reads back exactly when its name has 1 to 63 bytes |
| ConfigPrint.LastLine | trunk/2_source/mxx_ctp/common/ConfigFile.cpp:346 | a last line without a line feed is a line like any other |
| ConfigPrint.LongLine | trunk/2_source/mxx_ctp/common/ConfigFile.cpp:346 | a line longer than the buffer is read in pieces of 2047 bytes |
| ConfigPrint.LastItemRoundTrip | trunk/2_source/mxx_ctp/common/ConfigFile.cpp:320-384 | a file whose last line has no line feed reads back as its items in order, the last one included |
| ConfigPrint.LastSettingFound | trunk/2_source/mxx_ctp/common/ConfigFile.cpp:247-308 | a setting on such a last line is found under its section and key |
| ConfigPrint.FileExample | trunk/2_source/mxx_ctp/common/ConfigFile.cpp:247-308 | a file of sixteen bytes with a header, a tab, blanks, a comment and no final line feed, and the value found in it |
| ConfigPrint.FileRoundTrip | trunk/2_source/mxx_ctp/common/ConfigFile.cpp:320-384 | a file written line by line from headers, settings and remarks that can be read back is read as exactly these, in order |
| OsPath.DirnameOf | trunk/2_source/mxx_ctp/common/os_path.cpp:48-99 | the answer and the directory name in the buffer, cut to its size before trailing separators are dropped in place |
| OsPath.BasenameOf | trunk/2_source/mxx_ctp/common/os_path.cpp:107-143 | the answer and the last component in the buffer, cut to its size |
| OsPath.PartsExist | trunk/2_source/mxx_ctp/common/os_path.cpp:48-143 | every path with a component is directory, separators, component, trailing separators |
| OsPath.PartsExactly | trunk/2_source/mxx_ctp/common/os_path.cpp:48-143 | for any such decomposition of the path, the base name is its component, as far as it fits, and the directory name its directory, "/" when that is empty, cut to the room and freed of trailing separators; no directory name exactly without separators before the component |
| OsPath.OnlySeps | trunk/2_source/mxx_ctp/common/os_path.cpp:60-65 | a path of separators only has directory "/" with answer 0, and no base name; the empty path has neither and answers -1 |
| OsPath.DirnameShorter | trunk/2_source/mxx_ctp/common/os_path.cpp:48-99 | a directory name, cut or not, is shorter than the path, unless the path is a single separator |
| OsPath.ClimbExactly | trunk/2_source/mxx_ctp/common/os_path.cpp:48-99 | taking directory names again and again ends, at "/" exactly for paths that begin with a separator, else in failure |
| BackTests.TradeStrategy2.BuyStrategy | trunk/2_source/quantative_trading/src/TradeStrategy2.py:18-29 | the counter starts at 1 exactly on a day that meets the rule while nothing is held, and counts on while something is held |
| BackTests.TradeStrategy2.SellStrategy | trunk/2_source/quantative_trading/src/TradeStrategy2.py:31-34 | the counter returns to 0 exactly when it has reached the threshold |
| BackTests.TradeLoopBack.ExecuteTrade | trunk/2_source/quantative_trading/src/TradeLoopBack.py:19-35 | profit list and counter after the loop are those of the day-by-day recurrence, from any counter |
| BackTests.ProfitsAreWindows | trunk/2_source/quantative_trading/src/TradeLoopBack.py:24-35 | the profit list is the daily changes over disjoint holding windows, in order: each begins the day after a purchase and has threshold - 1 days, except where the data ends; the counter is that of the last window |
| BackTests.PurchaseDays | trunk/2_source/quantative_trading/src/TradeStrategy2.py:18-34 | a day is one of purchase exactly when it and the day before fell, together below the limit, and every earlier purchase lies at least the holding threshold back |
| BackTests.TradeExample | trunk/2_source/quantative_trading/src/TradeLoopBack.py:19-35 | five days with one purchase: its profits are the changes of the two days after it |
| BackTests.ScheduleExists | trunk/2_source/quantative_trading/src/TradeStrategy2.py:18-34 | a schedule of purchases on days that meet the rule while flat, missing none, exists for every history, threshold and limit |
| BackTests.ScheduleUnique | trunk/2_source/quantative_trading/src/TradeStrategy2.py:18-34 | and there is only one |
| BackTests.CounterBelow | trunk/2_source/quantative_trading/src/TradeStrategy2.py:31-34 | between days the counter lies in [0, threshold), and is 0 for thresholds below 2 |
| BuyBooks.ExchMatchMaking.PushBuyEntrust | trunk/2_source/mx_project/mx_service/exch_matchmaking/exch_matchmaking.cpp:95-118 | the scan inserts the order before the first one that it should precede, at the end if there is none |
| BuyBooks.CmpExactly | trunk/2_source/mx_project/mx_service/exch_matchmaking/exch_matchmaking.cpp:59-75 | the higher price goes first, prices within a millionth count as equal, and then the lower number goes first |
| BuyBooks.BookKeeps | trunk/2_source/mx_project/mx_service/exch_matchmaking/exch_matchmaking.cpp:95-118 | any run of pushes keeps every order and leaves no inverted neighbours, though the comparison is not transitive |
| BuyBooks.ToleranceExample | trunk/2_source/mx_project/mx_service/exch_matchmaking/exch_matchmaking.cpp:60-75 | three orders with prices within the precision of each other in a cycle: two arrival orders give two different books |
| BuyBooks.BookSorted | trunk/2_source/mx_project/mx_service/exch_matchmaking/exch_matchmaking.cpp:59-75 | if distinct prices differ by more than the precision and numbers are distinct, the book is sorted by price descending, then number ascending |
| BookArrival.ArrivalExactly | trunk/2_source/mx_project/mx_service/exch_matchmaking/exch_matchmaking.cpp:60-118 | every order of arrival makes the same book exactly when the comparison tells any two different orders apart and no three of them go round in a circle |
| BookArrival.ArrivalByNumber | trunk/2_source/mx_project/mx_service/exch_matchmaking/exch_matchmaking.cpp:60-118 | with numbers of their own, exactly when no three orders go round in a circle |
| BookArrival.ArrivalOrderIrrelevant | trunk/2_source/mx_project/mx_service/exch_matchmaking/exch_matchmaking.cpp:95-118 | in particular when distinct prices differ by more than the precision and numbers are distinct |

## Left out

- Mutexes, conditions, semaphores, file locks, shared memory, epoll, threads, logs and clocks: thin wrappers; queue operations count as atomic, and the connection table is a flag that says whether the socket is known.
- The link and dispatch server, the order matching and the sell book: unfinished, or not doing what their comments intend.
- The ring versions of the struct conversions: their serial offsets are all zero and one loop never advances.
- `mxx_write_event`, and the branch of `mxx_read_event` that resumes a packet: the caller clears its state before every packet, so the branch is never entered.
- The timeout in the receive loop: the counter it compares never advances, so that branch is never taken.
- `mxx_varmem_assign` and `mxx_varmem_write`: their length rules are not those of operations on a string.
- `mdb_begin_transaction`, `mdb_commit_transaction` and `mdb_rollback_transaction`: only declared; the rollback modelled is the one the header describes.
- Destructors and deallocation: released memory is simply no longer used.
- RecordSpec.RecordRoundTrip: the data pointer inside the record is not modelled as an address; its eight bytes stay zero, and the data follows the record.
- Transactions.Transaction.PushRecord: an allocation failure of `new` is a parameter that leads to the code's own check, although a real `new` would throw.
- FieldRing.Field.constructor: models the note at rtti_def.h:133, not the assignment in the constructor, which would leave the ring pointers unset.
- FieldDescriptors.Descriptor.StructToSerial: requires that the fields it converts lie inside both buffers; FieldDescriptors.InOrderBounded shows when that is so, and outside it the code has no defined behaviour.
- FieldDescriptors.Descriptor.SerialToStruct: the same.
- FieldDescriptors.Descriptor.ClearStruct: requires offsets and sizes that are not negative.
- VarMems.VarMem.constructor: the size and the header are added exactly; a size near 2^64 would wrap.
- VarMems.VarMem.PerformAll: for a run in which some edit moves 2^31 bytes or more it says what each step does, not when the errors of several steps cancel out.
- VarMems.VarMem.Fill: sums of a position and a length are exact; a length near 2^64 would wrap.
- VarMems.VarMem.Replace: the same.
- VarMems.VarMem.Skip: the same.
- ConfigLines.SplitProfileValue: the comment text is not returned, as every caller passes no buffer for it; on the line that is only a line feed the byte before the buffer is not looked at.
- ConfigFiles.ConfigFile.ReadProfileString: the output buffer must have room for at least the terminating zero, and the conversions to numbers around it are not modelled.
- OsPath.DirnameOf: file system queries and directory creation are not modelled.
- BackTests.TradeLoopBack.ExecuteTrade: the strategy always has both methods; floating point rounding is not modelled.
- BuyBooks.ExchMatchMaking.PushBuyEntrust: prices are exact real numbers.
