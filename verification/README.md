# VDS kernel: verification

A Dafny 4.11 model of the parts of the VDS kernel whose correctness rests on arithmetic, on
state machines or on two pieces of code that must agree. `dafny verify dfyconfig.toml` checks
all of it.

**The erasure code** (`kernel/vds_data`). A block is stored as replicas, each the block
evaluated as a polynomial at the point given by the replica's number, over GF(2^8) or GF(2^16).
The main result is that any k replicas with different numbers restore the block byte for byte,
and that fewer do not. `Gf2Poly` and `Gf` prove that the shift-and-xor loop is multiplication of
polynomials modulo the fixed polynomial; `BitEval`, `Primitive` and `Cyclic` prove that x is primitive
for both polynomials and derive from that, by counting, that every nonzero element is a power of x;
`GfMath` proves that the tables built by stepping through those powers refine multiplication and
division. `Vectors`, `Elimination` and `Matrix` prove the in-place Gauss-Jordan inversion without
pivoting, `ChunkCodec`, `AnyK`, `Threshold`, `Chunk`, `ChunkStorage` and `ChunkOutput` the codec
around it and its streaming form.

**Protocols between threads** (`kernel/vds_core`). `SharedMutexProtocol`, `WorkerPoolProtocol`
and `SerialExecutorProtocol` describe the reader/writer lock, the worker pool and the serial
executor as step relations over critical sections and prove invariants of every run;
`SharedMutex`, `MtService` and `ThreadApartment` are the classes, whose critical sections are
proved to be those steps. The lock turns out to lose a wake-up when more than N_READERS + 1
threads use it, and only then.

**Stream formats** (`kernel/vds_http`). `WebsocketFrames`, `WebsocketDelivery`, `Websocket`,
`WebsocketOutput` and `WebsocketClient`, and `HttpHeaders`, `HttpStream`, `HttpParser` and
`HttpSerializer`: incremental readers that must not depend on how the bytes are cut, against the
writers of the same format. Three limits of the code come out as exact conditions: the mask index
of the server's reader is an `int`, the client's test for the end of a frame wraps in 64 bits, and
the server's reader asks for three bytes where an unmasked frame may have fewer.

**Values** (`kernel/vds_core`, `kernel/vds_parser`). `SerialFormat` and `Serializer`: the binary
serializer. `SimpleCache`: the batch-evicting cache against the history of its operations.
`Base64`. `Utf8`, `JsonTree`, `JsonWriter`, `JsonMachine`, `JsonSteps`, `JsonParser`,
`JsonRoundTrip` and `JsonTransfer`: the JSON writer and the JSON stack machine. The JSON round
trip is not an identity on all trees; the exact domain on which it is one is proved, in both
directions. `JsonLayout` and `JsonGrammar` state the language of the parser apart from its
states: it yields a tree if and only if the input is a layout of that tree, whatever white
space, comments, numbers and spellings of characters are chosen.

Classes keep the fields of the source and change them in place; each method is proved equal to a
function on values, and the properties are proved about those functions. `Arithmetic`, `Bytes`,
`Collections`, `Numbers` and `Wrappers` hold what several modules share. Where a class has an
additional field for what was handed to a callback or written to a connection (`log`,
`delivered`, `sent`, `results`, `received`), it stands for that foreign object.

Parameters stand for what the program takes from its surroundings: the random mask of an outgoing
WebSocket message, the number of processors, the thread woken by a notification. Callbacks are
assumed to succeed and to return a stream.

## Model

| member | source | states |
|---|---|---|
| Gf2Poly.ReduceIsRemainder | kernel/vds_data/gf.h:42-67 | the reduction used as reference is the unique remainder: below x^m and congruent to its argument modulo the polynomial |
| Gf2Poly.ResidueUnique | kernel/vds_data/gf.h:42-67 | two polynomials below x^m in the same residue class are equal, so products of classes are well defined |
| Gf.ExcludeOr | kernel/vds_data/gf.h:261-267 | the byte loop is exclusive or of the numbers held by the arrays |
| Gf.ShiftLeft | kernel/vds_data/gf.h:268-281 | the byte loop with its carry doubles the number and drops what overflows the array |
| Gf.ShiftRight | kernel/vds_data/gf.h:282-295 | the byte loop with its carry halves the number |
| Gf.Round | kernel/vds_data/gf.h:52-64 | one round adds, multiplies by x with reduction and halves, for every width m |
| Gf.Multiply | kernel/vds_data/gf.h:42-67 | for every m and modulus of degree m, operator* is the remainder of the polynomial product |
| Gf.InstantiatedModuli | kernel/vds_data/gf.h:99-126 | the four polynomials written in the source are moduli of their degree |
| Galois.MulIsPolynomialProduct | kernel/vds_data/gf.h:42-67 | a residue is the product exactly when it is congruent to the polynomial product |
| Galois.MulComm | kernel/vds_data/gf.h:42-67 | multiplication is commutative |
| Galois.MulAssoc | kernel/vds_data/gf.h:42-67 | multiplication is associative |
| Galois.MulXor | kernel/vds_data/gf.h:42-67 | multiplication distributes over exclusive or |
| Cyclic.OrderFacts | kernel/vds_data/gf.h:145-153 | x to the power 255 (65535) is 1 in the field of 8 (16) bits |
| Cyclic.RootFacts | kernel/vds_data/gf.h:145-153 | x to the power of the order divided by any of its primes is not 1 |
| Cyclic.NoSmallerPeriod | kernel/vds_data/gf.h:145-153 | x is primitive: no smaller positive power is 1 |
| Cyclic.PowInjective | kernel/vds_data/gf.h:207-215 | powers of x below the order are pairwise different |
| Cyclic.LogExists | kernel/vds_data/gf.h:207-215 | every nonzero element is a power of x |
| Cyclic.NoZeroDivisors | kernel/vds_data/gf.h:42-67 | the product of nonzero elements is nonzero |
| Cyclic.DivMul | kernel/vds_data/gf.h:167-179 | (a / b) * b = a for every nonzero b |
| Cyclic.MulDiv | kernel/vds_data/gf.h:229-241 | (a * b) / b = a for every nonzero b |
| GfMath.EnterNext | kernel/vds_data/gf.h:145-151 | the collision assertion holds: the slot of the next power is still empty, and the filled part of the tables grows |
| GfMath.FillTables | kernel/vds_data/gf.h:197-216 | the table-building loop ends with exact logarithm and antilogarithm tables, in both widths |
| GfMath.TablesInverse | kernel/vds_data/gf.h:197-227 | the two tables are inverse to each other |
| GfMath.Math.Mul | kernel/vds_data/gf.h:156-165 | the table lookup is the shift-and-xor product for all operands |
| GfMath.Math.Div | kernel/vds_data/gf.h:229-241 | the lookup with its correction loop is division in the field |
| Vectors.KillsRoots | kernel/vds_data/chunk.h:308-329 | a row that annihilates the monomials up to i annihilates every shifted product of i linear factors |
| Vectors.PivotNonzero | kernel/vds_data/chunk.h:308-311 | for pairwise different numbers no reduced row can vanish on its own column: otherwise a product of nonzero factors would be zero |
| Vectors.Exchange | kernel/vds_data/chunk.h:421-436 | applying a row to a code word is applying its values on the monomials to the data |
| Vectors.Decodes | kernel/vds_data/chunk.h:421-436 | a row that maps the monomials to a unit vector picks one cell of the data |
| Elimination.FirstPassStep | kernel/vds_data/chunk.h:311-328 | clearing one row keeps left = multipliers * V, the triangular shapes and the nonzero diagonal |
| Elimination.Pivot | kernel/vds_data/chunk.h:310-310 | every pivot of the first pass is nonzero |
| Elimination.SecondPassStep | kernel/vds_data/chunk.h:331-345 | dividing a row by its pivot keeps left = multipliers * V and makes the diagonal entry 1 |
| Elimination.ThirdPassStep | kernel/vds_data/chunk.h:348-360 | the reverse pass clears one entry above the diagonal and keeps left = multipliers * V |
| Elimination.ThirdPassDone | kernel/vds_data/chunk.h:362-373 | after the three passes every row of left is a unit vector |
| Matrix.GenerateMultipliers | kernel/vds_data/chunk.h:183-194 | the buffer holds the powers of n from 0 to k - 1 |
| Matrix.Prepare | kernel/vds_data/chunk.h:296-306 | left becomes the Vandermonde matrix, the multipliers the identity |
| Matrix.CombineRow | kernel/vds_data/chunk.h:312-327 | the inner loop replaces a row by m1 * row j - m2 * row i, although m2 and the entries are read while being overwritten |
| Matrix.SubtractRow | kernel/vds_data/chunk.h:351-358 | the inner loop of the reverse pass subtracts a multiple of one row from another |
| Matrix.DivideRow | kernel/vds_data/chunk.h:334-344 | one row of left or of the multipliers is divided by the pivot, from the given column on |
| Matrix.FirstPasses | kernel/vds_data/chunk.h:308-329 | the whole first pass in place, with the assertions of the source |
| Matrix.SecondPasses | kernel/vds_data/chunk.h:331-345 | the whole second pass in place |
| Matrix.ThirdPasses | kernel/vds_data/chunk.h:347-360 | the whole reverse pass in place |
| Matrix.SizeFitsIff | kernel/vds_data/chunk.h:292-294 | the number of entries, computed in int, fits if and only if k is at most 46340 |
| Matrix.Invert | kernel/vds_data/chunk.h:290-375 | for pairwise different numbers, as many as the int index can hold, the constructor leaves multipliers * V = I |
| ChunkCodec.GroupsFormula | kernel/vds_data/chunk.h:248-271 | the size the source predicts for the body, and asserts, is the size of the body that its loop writes |
| AnyK.CellRoundTrip | kernel/vds_data/chunk.h:254-267 | a cell written with the high byte first is read back |
| AnyK.DecodesAll | kernel/vds_data/chunk.h:421-441 | the decoding loop over all groups yields the block followed by fill |
| AnyK.ExpectedIsSize | kernel/vds_data/chunk.h:415-419 | the formula for the expected size gives the size of the block, for every size including 0 and short last groups |
| AnyK.AnyKRestores | kernel/vds_data/chunk.h:403-444 | any k replicas under pairwise different numbers, in any order, restore exactly the block, in both widths |
| AnyK.RestoredIff | kernel/vds_data/chunk.h:405-443 | restore accepts replicas exactly when they have one size of at least two bytes, the same last two bytes, and enough cells for the size these announce |
| Threshold.Twin | kernel/vds_data/chunk.h:246-281 | under any fewer than k numbers every block with more cells than numbers has a different block of the same length with the same replicas |
| Threshold.DeterminedIff | kernel/vds_data/chunk.h:403-444 | m < k replicas determine the blocks of a length if and only if those have at most m cells, so k is the exact threshold |
| Chunk.ChunkGenerator.Write | kernel/vds_data/chunk.h:246-281 | the replica of the block: body and padding word; it fails exactly when the padding word cannot hold the length of the last group |
| Chunk.ChunkGenerator.WritePadding | kernel/vds_data/chunk.h:284-287 | the padding word, with the checked cast to 16 bits |
| Chunk.ChunkRestore.constructor | kernel/vds_data/chunk.h:291-375 | the decoding matrix inverts the Vandermonde matrix of the given numbers |
| Chunk.ChunkRestore.Restore | kernel/vds_data/chunk.h:403-444 | the loops compute the decoding specified in AnyK for replicas of any sizes, with the early return and the failing cases |
| ChunkStorage.Storage.GenerateReplica | kernel/vds_data/chunk_storage.cpp:41-60 | the replica does not depend on the cache of generators |
| ChunkStorage.Storage.RestoreData | kernel/vds_data/chunk_storage.cpp:62-86 | whatever order the map lists them in, min_horcrux replicas of one block restore it when min_horcrux is at most 46340; a wrong number, unequal sizes or a larger min_horcrux are errors |
| ChunkStorage.PaddingAlwaysFits | kernel/vds_data/chunk.h:274-274 | the padding word is wide enough for every block if and only if a group has at most 65536 bytes |
| ChunkOutput.BodyConcat | kernel/vds_data/chunk.h:147-152 | the body of a block is the concatenation of the bodies of its parts when the first is made of whole groups |
| ChunkOutput.ChunkOutputAsync.WriteAsync | kernel/vds_data/chunk.h:130-167 | for every way of cutting the input, what is sent is the one-shot replica of everything received, also when the last buffer is exactly full |
| SharedMutexProtocol.InvNext | kernel/vds_core/legacy.h:47-135 | every critical section keeps the invariant: reader count, one owner of the write bit, sleepers at gate 2 awake when the readers are gone |
| SharedMutexProtocol.RunSafe | kernel/vds_core/legacy.h:47-135 | the invariant holds after every run, for any number of threads |
| SharedMutexProtocol.Exclusion | kernel/vds_core/legacy.h:47-64 | a writer inside excludes all readers and other writers |
| SharedMutexProtocol.NoReaderOvertakes | kernel/vds_core/legacy.h:95-104 | after write_entered_ is set no reader gets in |
| SharedMutexProtocol.EntersIff | kernel/vds_core/legacy.h:49-135 | where the thread that takes a step is afterwards, in terms of where the threads are: lock and lock_shared, waiting or not, and the two try forms end inside exactly when nobody who excludes it is inside or owns the write bit, up to 2^31 - 1 readers; the unlocks end outside |
| SharedMutexProtocol.OthersStay | kernel/vds_core/legacy.h:47-135 | a thread that does not take the step stays where it is and is at most woken |
| SharedMutexProtocol.Enabled | kernel/vds_core/legacy.h:47-135 | the sections that a thread can run next, in every place of the code |
| SharedMutexProtocol.WaitingWriterEnters | kernel/vds_core/legacy.h:54-57 | whatever the others do while a writer waits for the readers, none joins, and its own next step takes it inside exactly when as many have left as there were |
| SharedMutexProtocol.CanGetIn | kernel/vds_core/legacy.h:47-135 | no deadlock: from every reachable state a thread in lock or lock_shared can get in, by steps of the threads ahead of it and one of its own |
| SharedMutexProtocol.WakeupLost | kernel/vds_core/legacy.h:119-135 | with N_READERS + 2 threads a run exists in which a reader sleeps on although it could enter |
| SharedMutexProtocol.WakeupsNeverLost | kernel/vds_core/legacy.h:119-135 | no wake-up is lost in any run if and only if at most N_READERS + 1 threads use the lock |
| SharedMutex.SharedMutexObject.LockSection | kernel/vds_core/legacy.h:49-57 | lock up to its first wait is the step of the protocol |
| SharedMutex.SharedMutexObject.DrainSection | kernel/vds_core/legacy.h:55-57 | lock after waiting for the readers is the step of the protocol, and enters exactly when no reader is inside |
| SharedMutex.SharedMutexObject.TryLockSection | kernel/vds_core/legacy.h:66-81 | try_lock is the step of the protocol, and enters exactly when nobody is inside or owns the write bit |
| SharedMutex.SharedMutexObject.UnlockSharedSection | kernel/vds_core/legacy.h:119-135 | unlock_shared is the step of the protocol, with its two conditions for notifying |
| SharedMutexProtocol.UnlockSharedEnabled | kernel/vds_core/legacy.h:119-135 | a reader inside can always leave: unlock_shared has a step in every state of every run |
| SharedMutex.SharedMutexObject.UnlockSection | kernel/vds_core/legacy.h:83-91 | writing 0 to the state word loses no reader |
| SharedMutex.SharedMutexObject.LockSharedSection | kernel/vds_core/legacy.h:95-104 | lock_shared up to its wait or its end is the step of the protocol |
| WorkerPoolProtocol.RunInv | kernel/vds_core/mt_service.cpp:110-161 | after every run: free_threads_ counts the parked workers, the threads stay within the cap, the handlers begun and queued are those passed to do_async, in order, and a non-empty queue has a worker running or notified |
| WorkerPoolProtocol.EveryScheduleDrains | kernel/vds_core/mt_service.cpp:133-161 | without further scheduling, under every schedule of the workers and with spurious wake-ups, n worker steps begin the first n queued handlers, so the queue length many begin every handler passed to do_async |
| WorkerPoolProtocol.Drains | kernel/vds_core/mt_service.cpp:133-161 | a schedule of exactly that length exists, and no step of it needs a further notification |
| WorkerPoolProtocol.NotStranded | kernel/vds_core/mt_service.cpp:110-161 | while the queue is non-empty its first handler can be begun by a worker that needs no further notification |
| WorkerPoolProtocol.DoAsyncEnabled | kernel/vds_core/mt_service.cpp:110-126 | do_async can be called in every state |
| WorkerPoolProtocol.PoolGrows | kernel/vds_core/mt_service.cpp:114-122 | a thread is started exactly when a handler comes, no worker is parked, and there are fewer than 16 for every processor |
| WorkerPoolProtocol.WorkerLeavesIff | kernel/vds_core/mt_service.cpp:137-142 | a worker leaves exactly when it finds no handler and eight others are parked; otherwise it parks |
| MtService.MtServiceObject.DoAsync | kernel/vds_core/mt_service.cpp:110-126 | do_async is the step of the protocol, and appends the handler to the queue |
| MtService.MtServiceObject.Turn | kernel/vds_core/mt_service.cpp:137-158 | the head of the loop of a worker is the step of the protocol |
| MtService.MtServiceObject.Resume | kernel/vds_core/mt_service.cpp:143-158 | a return from the wait is the step of the protocol |
| SerialExecutorProtocol.InvNext | kernel/vds_core/thread_apartment.h:27-74 | no step reads or pops an empty queue, and a drain job exists exactly when the queue is non-empty, never two |
| SerialExecutorProtocol.RunInv | kernel/vds_core/thread_apartment.h:27-74 | after every interleaving the invariant holds, and the callbacks finished and queued are those passed to schedule before the stop, in order |
| SerialExecutorProtocol.RefusedIff | kernel/vds_core/thread_apartment.h:27-66 | schedule and prepare_to_stop are refused exactly when a stop has been asked for, and accepted otherwise |
| SerialExecutorProtocol.PromiseKeptIff | kernel/vds_core/thread_apartment.h:48-75 | the promise has been kept, once, exactly when a stop was asked for and everything scheduled is finished |
| SerialExecutorProtocol.InOrder | kernel/vds_core/thread_apartment.h:31-57 | callbacks start in the order scheduled, once each, one at a time |
| SerialExecutorProtocol.Progress | kernel/vds_core/thread_apartment.h:35-59 | a non-empty queue always has a next step of its drain job |
| SerialExecutorProtocol.Drains | kernel/vds_core/thread_apartment.h:35-74 | without further scheduling the job finishes everything passed to schedule in a bounded number of steps, and the promise is kept exactly if a stop was asked for |
| ThreadApartment.ThreadApartmentObject.Schedule | kernel/vds_core/thread_apartment.h:27-36 | schedule is the step of the protocol: refused exactly after a stop, otherwise the callback is appended; a job is started exactly when the queue was empty |
| ThreadApartment.ThreadApartmentObject.Finish | kernel/vds_core/thread_apartment.h:47-56 | the end of a callback is the step of the protocol; the promise is kept exactly once |
| ThreadApartment.ThreadApartmentObject.PrepareToStop | kernel/vds_core/thread_apartment.h:62-74 | prepare_to_stop is the step of the protocol |
| WebsocketFrames.FeedConcat | kernel/vds_http/websocket.cpp:45-201 | reading two pieces in turn is reading their concatenation, from every state |
| WebsocketDelivery.LengthRead | kernel/vds_http/websocket.cpp:54-118 | the three length encodings are read back, for every 64-bit length |
| WebsocketDelivery.HeadBytes | kernel/vds_http/websocket_client.cpp:59-96 | the header of a masked frame byte by byte: FIN set, the reserved bits clear, opcode 1 or 2, the mask bit, the shortest length, the mask (section 5.2 of RFC 6455) |
| WebsocketDelivery.PlainHeadBytes | kernel/vds_http/websocket.cpp:220-257 | the header of an unmasked frame byte by byte, with FIN set |
| WebsocketDelivery.FramePayload | kernel/vds_http/websocket_client.cpp:98-101 | byte i of the payload is sent exclusive-ored with byte i mod 4 of the mask |
| WebsocketDelivery.OpcodesIff | kernel/vds_http/websocket.cpp:111-145 | the server reader opens a message exactly for the opcodes 1, 2 and 9, with the announced length and mask, and fails for all others |
| WebsocketFrames.FeedPastIndex | kernel/vds_http/websocket.cpp:163-171 | more masked bytes than the int index can count are an error |
| WebsocketDelivery.FrameReads | kernel/vds_http/websocket.cpp:45-201 | a masked frame of up to 2^31 - 1 bytes is one delivery with its kind, its payload and one end signal |
| WebsocketDelivery.FrameReadsIff | kernel/vds_http/websocket.cpp:163-171 | a masked frame is read without leaving the range of the mask index if and only if its payload has at most 2^31 - 1 bytes |
| WebsocketDelivery.AllDelivered | kernel/vds_http/websocket_client.cpp:59-104 | any sequence of messages of up to 2^31 - 1 bytes arrives in order, each ended once; only the end signal of a last empty message waits for the next byte |
| WebsocketDelivery.AllReadIff | kernel/vds_http/websocket.cpp:45-201 | any sequence of masked frames is read without an error if and only if every payload has at most 2^31 - 1 bytes |
| WebsocketDelivery.PiecesDoNotMatter | kernel/vds_http/websocket.cpp:45-201 | the result of a run of writes depends only on the bytes, not on the cuts |
| WebsocketDelivery.DeliveredInPieces | kernel/vds_http/websocket.cpp:45-201 | messages framed and masked, cut anywhere, arrive with kind, payload and exactly one end signal each if and only if every payload has at most 2^31 - 1 bytes and the last is not empty |
| WebsocketDelivery.PlainFrameIff | kernel/vds_http/websocket.cpp:45-201 | an unmasked frame is never an error of the server reader, and is read as one complete delivery of its payload if and only if the payload has at least 126 bytes |
| WebsocketDelivery.ShortPlainFrameLosesByte | kernel/vds_http/websocket.cpp:54-57 | because of the three-byte minimum an unmasked frame of 1 to 125 bytes loses its first payload byte and one more byte is awaited |
| WebsocketDelivery.EmptyPlainFrameWaits | kernel/vds_http/websocket.cpp:54-57 | an empty unmasked frame leaves the reader in the header, waiting for a third byte |
| WebsocketDelivery.LongPlainFrameReads | kernel/vds_http/websocket.cpp:45-201 | an unmasked frame with an extended length is one complete delivery |
| Websocket.WebsocketHandler.ReadMinimal | kernel/vds_http/websocket.cpp:203-218 | the header buffer is filled up to the wanted size as far as the data goes |
| Websocket.WebsocketHandler.UnmaskBuffer | kernel/vds_http/websocket.cpp:163-171 | the unmasking loop over the copy continues the mask where the last piece stopped, and fails exactly when the index would leave the range of int |
| Websocket.WebsocketHandler.WriteAsync | kernel/vds_http/websocket.cpp:45-201 | a write is reading its bytes one by one |
| WebsocketOutput.Output.StartMessage | kernel/vds_http/websocket.cpp:220-257 | the header of an unmasked frame in the shortest length form |
| WebsocketClient.Client.SendMessage | kernel/vds_http/websocket_client.cpp:59-104 | the bytes sent are one masked frame |
| WebsocketClient.Client.PutMasked | kernel/vds_http/websocket_client.cpp:98-101 | the 8-bit index into the mask wraps around without losing its place |
| WebsocketClient.CompleteFrame | kernel/vds_http/websocket_client.cpp:169-202 | a complete frame, masked or not, is a message with its unmasked payload for the opcodes 1 and 2 and an error for all others |
| WebsocketClient.Overruns | kernel/vds_http/websocket_client.cpp:169-190 | from a length within 10 of 2^64 on the wrapped sum takes the header alone for a whole frame |
| WebsocketClient.PartsWaitIff | kernel/vds_http/websocket_client.cpp:169-171 | every part of a frame waits for the rest if and only if the length of the whole frame is below 2^64 |
| WebsocketClient.TenBytesFail | kernel/vds_http/websocket_client.cpp:169-190 | the ten header bytes 81 7F FF FF FF FF FF FF FF FB, which announce 2^64 - 5 bytes, are an error at once |
| WebsocketClient.NeverFailsIff | kernel/vds_http/websocket_client.cpp:110-204 | no way of cutting any part of a stream of messages is an error if and only if the length of every frame is below 2^64 |
| WebsocketClient.ReceiveConserves | kernel/vds_http/websocket_client.cpp:110-204 | one write delivers the next message if its whole frame has arrived and nothing otherwise; no byte is lost |
| WebsocketClient.NothingLost | kernel/vds_http/websocket_client.cpp:110-204 | after any run of writes exactly the first Out messages have been delivered, and their frames followed by the buffer are all bytes received |
| WebsocketClient.OutIsMinimum | kernel/vds_http/websocket_client.cpp:110-204 | the number delivered is the least, over all points of the run, of the whole frames arrived by then plus one for every write since |
| WebsocketClient.AllOutIff | kernel/vds_http/websocket_client.cpp:110-204 | every whole frame that has arrived is delivered if and only if since no point more frames than writes have come |
| WebsocketClient.AlwaysOutIff | kernel/vds_http/websocket_client.cpp:110-204 | after every write all whole frames are delivered if and only if no write completes two frames |
| WebsocketClient.EndIff | kernel/vds_http/websocket_client.cpp:114-119 | the final empty write succeeds if and only if the bytes received are exactly the frames of the messages delivered |
| WebsocketClient.WholeStreamEndsIff | kernel/vds_http/websocket_client.cpp:110-204 | a stream of whole frames ends without an error if and only if at no point more frames than writes were still to come |
| WebsocketClient.OthersWait | kernel/vds_http/websocket_client.cpp:110-204 | of any frames in one write only the first is delivered, the others stay in the buffer, and the end of the stream then fails unless there was one |
| WebsocketClient.InputStream.WriteAsync | kernel/vds_http/websocket_client.cpp:110-204 | a write computes the specified decoder step, with the sum that wraps in 64 bits; the end of the stream fails when part of a frame is left |
| WebsocketClient.InputStream.UnmaskInPlace | kernel/vds_http/websocket_client.cpp:173-179 | the payload is unmasked where it lies, and nothing else changes |
| HttpHeaders.FirstNamed | kernel/vds_http/http_message.cpp:60-79 | the first header with the name is found, and trimmed |
| HttpHeaders.Trimmed | kernel/vds_http/http_message.cpp:75-75 | white space on both sides of a value is taken off, and nothing else |
| HttpHeaders.NamedIffPrefix | kernel/vds_http/http_message.cpp:60-78 | a header has a name exactly when it begins with its bytes and a colon |
| HttpHeaders.DecimalDigits | kernel/vds_http/http_response.cpp:54-54 | a number is written with its decimal digits, the last one for the ones, without a leading zero |
| HttpHeaders.NumberRead | kernel/vds_http/http_parser.cpp:90-96 | a decimal length with any white space around it is read back, for every 64-bit number |
| HttpHeaders.SignedRead | kernel/vds_http/http_parser.cpp:91-92 | stoul takes a sign, ignores what follows the digits, and wraps a negative number around |
| HttpStream.FeedConcat | kernel/vds_http/http_parser.cpp:53-143 | reading two pieces in turn is reading their concatenation |
| HttpStream.ComesBackIff | kernel/vds_http/http_parser.cpp:53-143 | a message comes back as written if and only if its header lines are non-empty and free of line feeds, there is one, it is not chunked, and the declared length is that of the body |
| HttpStream.OnlySendable | kernel/vds_http/http_parser.cpp:53-143 | whatever bytes arrive, no message is ended twice, only the last may be open, and every ended one is one the serializer could have written |
| HttpStream.AllComeBack | kernel/vds_http/http_parser.cpp:53-143 | pipelined messages come back in order, each ended exactly once |
| HttpStream.ComeBackInPieces | kernel/vds_http/http_parser.cpp:53-143 | the same for every segmentation, also between CR and LF |
| HttpStream.DeclaredComesBack | kernel/vds_http/http_parser.cpp:90-110 | a message with its length in a line of the bytes of Content-Length: and a decimal number, with any white space or none, and no such line before it, comes back |
| HttpStream.ChunkedRefused | kernel/vds_http/http_parser.cpp:80-82 | a message whose first line with the bytes of Transfer-Encoding: says chunked is refused at its empty line |
| HttpStream.UndeclaredUntilClose | kernel/vds_http/http_parser.cpp:91-97 | without a line of the bytes of Content-Length: the body lasts until the connection is closed |
| HttpStream.HeadBytesAre | kernel/vds_http/http_serializer.cpp:15-20 | every header line is followed by 0D 0A, and the last one by an empty line |
| HttpStream.BareLineFeed | kernel/vds_http/http_parser.cpp:53-72 | a line that ends with a bare line feed is read like one that ends with CR LF |
| HttpStream.EmptyLineFirst | kernel/vds_http/http_parser.cpp:74-77 | an empty line where a message should begin is an error |
| HttpStream.UntilClose | kernel/vds_http/http_parser.cpp:24-43 | a last message without a declared length is finished by the end of the connection |
| HttpParser.Parser.FindLineFeed | kernel/vds_http/http_parser.cpp:56-63 | memchr: the first line feed, or none |
| HttpParser.Parser.FinishLine | kernel/vds_http/http_parser.cpp:70-118 | what happens at the end of a line, with the empty line and its errors |
| HttpParser.Parser.WriteAsync | kernel/vds_http/http_parser.cpp:19-143 | a write is reading its bytes one by one; an empty write is the end of the connection |
| HttpSerializer.Serializer.StartMessage | kernel/vds_http/http_serializer.cpp:10-30 | the header lines and the empty line are written as one head |
| HttpSerializer.Serializer.WriteAsync | kernel/vds_http/http_serializer.cpp:36-47 | pieces of a body extend the message; an empty piece ends it |
| HttpSerializer.WrittenMessagesComeBack | kernel/vds_http/http_serializer.cpp:10-47 | what the serializer has sent, cut anywhere, is delivered by the parser as the messages written |
| SerialFormat.NumberRoundTrip | kernel/vds_core/binary_serialize.cpp:44-66 | every 64-bit number comes back from its variable-length form, without overflow or truncation |
| SerialFormat.NumberBytes | kernel/vds_core/binary_serialize.cpp:44-66 | the bytes of a number: itself below 128, otherwise 80 plus the count of the bytes of its excess over 128, without a leading zero |
| SerialFormat.ScalarBytes | kernel/vds_core/binary_serialize.cpp:8-85 | the bytes of bool, of two-byte numbers and of short strings and buffers |
| SerialFormat.DecodedBytes | kernel/vds_core/binary_serialize.cpp:98-215 | any byte but 00 is true, and a buffer is read back exactly up to 2^30 bytes |
| SerialFormat.RoundTrip | kernel/vds_core/binary_serialize.h:96-275 | for any nesting of list, vector, set and map, decoding the encoding followed by anything returns the value and leaves exactly what followed, if and only if every buffer is at most 1 GiB; otherwise decoding fails |
| SerialFormat.MessageRoundTrip | kernel/vds_core/binary_serialize.h:336-461 | the same for the fields of a message |
| SerialFormat.Total | kernel/vds_core/binary_serialize.h:118-139 | values of a type that are not ordered either way are equal, for the order of sets and maps at every nesting |
| SerialFormat.Transitive | kernel/vds_core/binary_serialize.h:118-139 | that order is transitive |
| SerialFormat.StringOrder | kernel/vds_core/binary_serialize.h:118-139 | strings are ordered by the first byte in which they differ, a proper prefix first |
| SerialFormat.BufferOrder | kernel/vds_core/const_data_buffer.h:102-106 | buffers are ordered by size, and those of one size by the first byte in which they differ |
| SerialFormat.InsertSorted | kernel/vds_core/binary_serialize.h:248-275 | emplace keeps a set or map sorted and free of duplicates |
| SerialFormat.InsertMeans | kernel/vds_core/binary_serialize.h:248-275 | emplace adds the element, unless an equivalent one is there: then nothing changes |
| SerialFormat.DecodeSound | kernel/vds_core/binary_serialize.h:222-275 | whatever the bytes, a decoded value is one its type allows, and the rest is a suffix of the data |
| SerialFormat.AcceptedComesBack | kernel/vds_core/binary_serialize.h:222-275 | any accepted input is equivalent to the encoding of the value it yields |
| Serializer.BinarySerializer.WriteNumber | kernel/vds_core/binary_serialize.cpp:44-66 | the digit loops write the shortest form |
| Serializer.BinarySerializer.CollectBytes | kernel/vds_core/binary_serialize.cpp:53-58 | the do-while loop takes off exactly the bytes of the shortest form, least significant first |
| Serializer.BinarySerializer.PutU64 | kernel/vds_core/binary_serialize.cpp:32-42 | eight bytes, most significant first |
| Serializer.BinarySerializer.PushData | kernel/vds_core/binary_serialize.cpp:74-86 | a buffer with or without its size |
| Serializer.BinarySerializer.Put | kernel/vds_core/binary_serialize.h:58-139 | operator << of all types writes the specified encoding |
| Serializer.BinaryDeserializer.GetNumber | kernel/vds_core/binary_serialize.cpp:109-180 | the fixed-width numbers, and the error for missing bytes |
| Serializer.BinaryDeserializer.ReadNumber | kernel/vds_core/binary_serialize.cpp:245-262 | the loop with its wrapping 64-bit accumulator |
| Serializer.BinaryDeserializer.GetString | kernel/vds_core/binary_serialize.cpp:182-194 | the byte by byte loop reads the specified string |
| Serializer.BinaryDeserializer.GetBuffer | kernel/vds_core/binary_serialize.cpp:197-215 | a buffer, with its two size checks |
| Serializer.BinaryDeserializer.PopData | kernel/vds_core/binary_serialize.cpp:217-243 | data copied out with or without a size, and when this fails |
| Serializer.BinaryDeserializer.Get | kernel/vds_core/binary_serialize.h:190-275 | operator >> of all types decodes as specified |
| Serializer.MessageSerialize | kernel/vds_core/binary_serialize.h:336-379 | the visitor writes the fields in order |
| Serializer.MessageDeserialize | kernel/vds_core/binary_serialize.h:381-425 | the visitor reads the fields in order and passes over the others after an error |
| SimpleCache.BoundIsExact | kernel/vds_core/simple_cache.h:49-53 | the least bound of the size over all runs, with the unsigned 64-bit difference: max_count, or the wrapped difference when remove_count is larger |
| SimpleCache.BoundedIff | kernel/vds_core/simple_cache.h:49-53 | the size stays within max_count over all runs if and only if remove_count is at most max_count |
| SimpleCache.RunAgrees | kernel/vds_core/simple_cache.h:16-88 | after any operations, for all counts: distinct keys, no more of them than the bound, in most-recent-use order, each with the last value set for it |
| SimpleCache.EvictsOldest | kernel/vds_core/simple_cache.h:49-53 | a batch eviction drops only keys used less recently than every key it keeps |
| SimpleCache.Dropped | kernel/vds_core/simple_cache.h:43-60 | a key disappears only by remove, or past the part that a full list keeps |
| SimpleCache.StaysWhileRecent | kernel/vds_core/simple_cache.h:16-60 | a key stays as long as fewer others have been named since than a batch leaves |
| SimpleCache.SetKeepsIff | kernel/vds_core/simple_cache.h:43-60 | the new entry survives its own eviction exactly when a batch does not empty the list |
| SimpleCache.Cache.Find | kernel/vds_core/simple_cache.h:16-26 | a hit is spliced to the front |
| SimpleCache.Cache.Set | kernel/vds_core/simple_cache.h:43-80 | a new entry goes to the front and may evict a batch; an old one is overwritten |
| SimpleCache.Cache.Remove | kernel/vds_core/simple_cache.h:82-88 | all entries with the key are removed |
| Base64.RoundTrip | kernel/vds_core/encoding.cpp:138-248 | every byte string comes back, with both forms of padding |
| Base64.EncodeAt | kernel/vds_core/encoding.cpp:138-174 | every letter stands for its six bits of the data, and what is left of the last four is filled with the byte 3D (section 4 of RFC 4648) |
| Base64.DecodeAt | kernel/vds_core/encoding.cpp:196-248 | every byte of the result is put together from the six bits of its letters, for every properly padded text |
| Base64.AcceptedIff | kernel/vds_core/encoding.cpp:181-240 | a text is accepted exactly when its length is a multiple of four and it is made of letters, or its first other byte and its last are 3D |
| Base64.LettersAreDigits | kernel/vds_core/encoding.cpp:204-218 | the range tests of the decoder are the inverse of the alphabet |
| Base64.LookupIsLetter | kernel/vds_core/encoding.cpp:136-136 | the lookup table is the alphabet of RFC 4648 |
| Base64.ShiftIn | kernel/vds_core/encoding.cpp:203-218 | the 32-bit accumulator keeps the letters of the current group in its low bits although it is never reset |
| Base64.FromBytes | kernel/vds_core/encoding.cpp:138-174 | the loop and the two padded cases compute the encoding |
| Base64.ToBytes | kernel/vds_core/encoding.cpp:181-248 | the decoder accepts exactly the specified texts, its writes stay inside the result, and properly padded text is decoded |
| Utf8.MangledSame | kernel/vds_core/encoding.cpp:49-133 | a string passed through next_char and add, cut to 16 bits, is unchanged if and only if it is made of characters below 0x800 in shortest form |
| Utf8.Below800Canonical | kernel/vds_core/encoding.cpp:108-117 | the text of any characters below 0x800 is such a string |
| Utf8.NextCharReads | kernel/vds_core/encoding.cpp:49-106 | next_char decodes the UTF-8 encoding of every code point below 0x10000, and leaves one lead bit in for those above (section 3 of RFC 3629) |
| Utf8.AddIff | kernel/vds_core/encoding.cpp:108-133 | add writes the UTF-8 encoding of a character if and only if it is below 0x800; above, only the lead byte is wrong |
| JsonTree.EscapesAreAscii | kernel/vds_parser/json_writer.cpp:209-238 | string output holds no control character and no byte above 0x7E (section 7 of RFC 8259) |
| JsonTree.RereadSame | kernel/vds_parser/json_object.cpp:248-314 | the tree with re-read strings is the tree itself exactly when all strings are in the common domain and no primitive is an integer |
| JsonWriter.Writer.WriteString | kernel/vds_parser/json_writer.cpp:201-243 | the quoted and escaped string, or an error for ill-formed UTF-8 |
| JsonWriter.Writer.StartProperty | kernel/vds_parser/json_writer.cpp:63-83 | the comma before all but the first property, the quoted name and the colon, allowed only inside an object |
| JsonWriter.Writer.StartArray | kernel/vds_parser/json_writer.cpp:157-180 | no comma before a nested array, and the state of the outer array kept |
| JsonWriter.WriteValue | kernel/vds_parser/json_object.cpp:248-314 | the tree walk writes the specified text and leaves the writer where it was |
| JsonWriter.Str | kernel/vds_parser/json_object.cpp:241-246 | the text of an object or array with well-formed strings, an error otherwise |
| JsonMachine.StartInv | kernel/vds_parser/json_parser.cpp:8-37 | starting a container keeps the relation between the two stacks |
| JsonMachine.FinalInv | kernel/vds_parser/json_parser.cpp:39-55 | closing a container never pops an empty stack and finds a parent of the right kind |
| JsonMachine.EndStringInv | kernel/vds_parser/json_parser.cpp:320-349 | at the closing quote the saved state determines the kind of the current node |
| JsonMachine.SavedTells | kernel/vds_parser/json_parser.cpp:273-349 | the saved state on top of the stack tells which cast is safe |
| JsonSteps.StepGood | kernel/vds_parser/json_parser.cpp:69-723 | every step, under all options, keeps the invariant |
| JsonSteps.RunInv | kernel/vds_parser/json_parser.cpp:69-723 | for every input, until the first error, every top, pop and cast is safe; the loop ends despite the step back |
| JsonSteps.RunConcat | kernel/vds_parser/json_parser.cpp:69-723 | the result does not depend on where the input is cut into writes |
| JsonSteps.Depths | kernel/vds_parser/json_parser.cpp:8-55 | the depths of the two stacks and the kind of the current node in every state |
| JsonParser.Reader.Write | kernel/vds_parser/json_parser.cpp:69-743 | a write runs the machine over its bytes; without data it checks that the document is complete |
| JsonParser.Reader.Finish | kernel/vds_parser/json_parser.cpp:792-823 | the end of a string or number puts it where the saved state says |
| JsonParser.Reader.Close | kernel/vds_parser/json_parser.cpp:774-790 | the closing brace or bracket attaches the container or hands over the root |
| JsonParser.ParseDocument | kernel/vds_parser/json_parser.cpp:845-855 | parse is the run over the document and the check at its end |
| JsonRoundTrip.ValueReads | kernel/vds_parser/json_parser.cpp:69-723 | wherever a value may stand, its text is read as the tree with re-read strings, or fails when it is outside the common structure |
| JsonRoundTrip.ParseOfText | kernel/vds_parser/json_parser.cpp:845-855 | what parse makes of the text of any object or array |
| JsonRoundTrip.RoundTripIff | kernel/vds_parser/json_object.cpp:248-314 | parse(str(t)) = t if and only if no value is null, an array stands in an array only as its single item, every primitive is a string, and every string is made of characters below 0x800 in shortest form |
| JsonLayout.NumberReads | kernel/vds_parser/json_parser.cpp:257-313 | wherever a value may stand, digits and points after a first digit, or after a sign for a property, and a character that is neither are read as an integer of exactly these characters, and that character is left |
| JsonLayout.DocReads | kernel/vds_parser/json_parser.cpp:69-723 | wherever a value may stand, every layout of it is read as the tree it means: any white space and comments, numbers, any spelling of any character in a string, a comma after the last element |
| JsonLayout.ParseOfLayout | kernel/vds_parser/json_parser.cpp:845-855 | parsing white space and any layout of an object or array yields its tree |
| JsonLayout.NumberDocument | kernel/vds_parser/json_parser.cpp:257-299 | parsing an object of one property with a number yields that name and all its digits in order |
| JsonLayout.NothingFollows | kernel/vds_parser/json_parser.cpp:713-722 | nothing may follow the document, not even white space |
| JsonLayout.RootsRead | kernel/vds_parser/json_parser.cpp:39-55 | with the option for several roots they are handed over in order, with white space and comments around them |
| JsonLayout.RefusedIff | kernel/vds_parser/json_parser.cpp:69-723 | which characters may come next in every state; all others are an error |
| JsonLayout.ShortEscapeWritten | kernel/vds_parser/json_writer.cpp:201-240 | the writer uses the short escape of a character that has one |
| JsonLayout.OtherEscapeWritten | kernel/vds_parser/json_writer.cpp:201-240 | the writer writes any other character as itself where it is printable ASCII, and with four lower-case hex digits otherwise |
| JsonLayout.NullWritten | kernel/vds_parser/json_object.cpp:258-269 | a property without a value is written as null, which the parser refuses |
| JsonGrammar.LayoutOf | kernel/vds_parser/json_parser.cpp:845-855 | whatever parse accepts is white space and a layout of one object or array |
| JsonGrammar.ParseIff | kernel/vds_parser/json_parser.cpp:845-855 | parse yields a tree if and only if the input is white space and then some layout of that tree |
| JsonTransfer.TransferIff | kernel/vds_parser/json_parser.h:109-121 | the same through the binary serializer |
| JsonTransfer.Put | kernel/vds_parser/json_object.h:217-222 | operator << writes the text as a string |
| JsonTransfer.Get | kernel/vds_parser/json_parser.h:109-121 | operator >> reads a string and parses it |

## Left out

- OpenSSL, zlib, SQLite, sockets, files, services and the user interface: foreign calls or plumbing.
- `gf<3>` and `gf<32>` are covered by the generic `Gf` only, without tables.
- `chunk` over vectors of cells and the `restore` that uses it (`kernel/vds_data/chunk.h:206-224`, `kernel/vds_data/chunk.h:383-400`): the same sums without packing.
- Matrix.Invert: the flat index `k * i + j` is a pair of indices of a two-dimensional array, whose number is bounded by the range of `int` (Matrix.SizeFitsIff), and the inner loops that change left and multipliers side by side are two methods called in turn.
- Chunk.ChunkRestore.constructor: requires k of at most 46340, the largest for which the size of the matrix is an `int`.
- Chunk.ChunkRestore.Restore: a failing `vds_assert` and a read before the begin or behind the end of a replica are error results; the source does not check the two reads.
- ChunkStorage.Storage.RestoreData: a `min_horcrux` above 46340 is an error result; the source has no such test, and the size of its matrix overflows.
- AnyK.AnyKRestores: blocks are shorter than 2^64 bytes, as `size_t` is.
- SharedMutexProtocol.InvNext: the internal mutex is the atomicity of a step; `owner_id_`, which is only written, is not modelled.
- Chunk.ChunkGenerator.Write: a failing `vds_assert` is an error result; in builds without C++ exceptions the macro is empty and the source goes on.
- WorkerPoolProtocol.RunInv: does not model shutdown, whose flag is read without the mutex.
- Websocket.WebsocketHandler.WriteAsync: only writes with data; an empty write closes the reader. Incrementing the mask index beyond the range of `int` is an error result, where the source has no test (WebsocketDelivery.FrameReadsIff says when it happens). Continuation and close frames are errors, as in the source.
- WebsocketDelivery.PiecesDoNotMatter: an empty piece is no write in this model; in the source an empty write closes the reader.
- HttpStream.ComeBackInPieces: an empty piece is no write in this model; HttpParser.Parser.WriteAsync treats an empty write as the end of the connection, as the source does.
- HttpHeaders.FirstNamed: `isspace` is false for bytes from 0x80 up, as in the C locale; the source passes a signed `char`, for which the C standard defines no result. The same holds for the JSON parser.
- WebsocketOutput.Output.StartMessage: does not model the lock between messages, which `output_stream` also releases on the terminating empty write.
- WebsocketClient.InputStream.WriteAsync: a payload that reaches behind the buffer after the sum has wrapped is an error result; the source builds a string or a buffer of the announced size, or unmasks behind its buffer first.
- HttpStream.ComesBackIff: chunked bodies are an error of the model. In the source the test of the size line at `kernel/vds_http/http_parser.cpp:155-157` rejects every well-formed one.
- HttpParser.Parser.WriteAsync: the message object, its parameters and the `Expect` header are not modelled.
- SimpleCache.Cache.Set: the reference that is returned is not modelled; it is dangling when `remove_count` equals `max_count` and a batch empties the list (SimpleCache.SetKeepsIff). The two overloads of `set` are one method.
- Serializer.BinaryDeserializer.GetString: the memory that the announced length reserves is not modelled.
- Serializer.BinaryDeserializer.GetNumber: one loop over the width stands for the unrolled statements of the source.
- Base64.ToBytes: a text with pad characters in the middle is accepted by the source with bytes of uninitialised memory in the result; the contract fixes only its length.
- JsonParser.Reader.Write: line and column numbers are not modelled, and an open node holds its children instead of being shared with its parent: a child is attached when it is complete.
- JsonMachine.FinalInv: `current_object_` is empty outside a document, where the source keeps the last node without using it.
- JsonWriter.Str: arrays with null items, which the source dereferences, do not exist in the model. `wchar_t` has 32 bits.
- `multipart_reader`, `url_parser`, `version`, the SQL builder, `barrier`, `url_encode`, `state_machine`, `timer`: not modelled.
