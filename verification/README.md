# librediscxx, verified

A Dafny model of the Redis client librediscxx: the byte stream under a connection, the RESP
writer and reply parser, the connection and session state machines, the partitioned and
replicated client, and the connection pool. What the C++ code updates in place is a class here
(`TcpClientBuffer`, `TcpClient`, `RedisProtocol`, `RedisCommand`, `Redis2`, `Redis2P`,
`RedisTss`); each of its methods is tied to a function of the old state, and the theorems are
about those functions and about whole runs.

| file | what it holds |
|---|---|
| `Wire`, `Decimal` | bytes, lines and blocks of a stream; decimal printing and `strtol` |
| `Os`, `TcpBuffer`, `Tcp` | partial sends; the growing buffer; reads over arbitrary chunks |
| `Resp`, `ReplyTheory`, `RoundTrip`, `Streaming` | the parser as a function; replies as trees; round trip, framing and locality |
| `Request`, `Pipeline` | request encoding and decoding; pipelines |
| `Links`, `Protocol`, `History`, `EndToEnd` | the connection seen from above; the `RedisProtocol` class; runs |
| `SessionSpec`, `Transactions`, `PendingQueue`, `Session` | `Redis2`: database selection, transactions, the pending list over runs |
| `Hash`, `Replicas`, `Partition`, `ClusterRun` | time33; index arithmetic; the cluster as one map |
| `Pool` | `RedisTss` under every interleaving |

Conventions. The network is a parameter: the chunks that `recv` will deliver until it fails, the
answers of `poll` and `send`, the finding of the occasional slow `is_open` check, whether a host
call is answered. A method proved for all values of these parameters holds against every
network. What becomes of a write is a function of the connection and of what `poll` and `send`
answer (`WriteFate`), never a free choice. `Link` is a connection without its chunks, with the
bytes still to read and the bytes sent; `Sess` is a `Redis2` with the database that
the server serves on its connection. Statements named below that hold only under a condition
have that condition proved exact wherever an "exactly when" is written.

Where the code does something its comments or the protocol do not suggest, the model follows the
code: zero-length bulks close the connection although the header file lists them as replies
(`EmptyBulkCloses`), the two bytes after a bulk are not compared with CRLF
(`BulkDelimiterUnchecked`), a count below -1 reads as an empty special multi-bulk
(`NegativeCount`), an error element inside a special multi-bulk abandons the rest of the reply
(`NestedErrorLosesFraming`), a reconnection keeps `transaction_mode_` (`StaleModeAfterReconnect`),
one number out of range spoils all later ones of the thread until another call writes errno
(`OneBadNumberSpoilsTheRest`), a command added without a successful MULTI before it can run in the
wrong database (`AddInWrongDatabase`), and so can every command after a select that reconnected by
itself and was refused (`RefusedSelectLosesDb`), an aborted EXEC keeps transaction mode
(`AbortedExecKeepsMode`), a nil EXEC keeps the pending list and so spoils every later transaction
(`NilExecKeepsPending`, `LeftoversPoison`) or pairs its replies with the wrong commands
(`WrongPairing`), a nil array does not come back from a transaction as nil mbulks
(`TransactionTransparent`), a pipeline leaves replies unread on an open connection after an error
reply, after an error inside its last reply, or after a wrong argument count that stops it half
written (`PipelinesThatLosePlace`; `PipelineFraming` gives the exact condition), the length
of a write is cut to an `int` (`WholeWhenShort`), and the doubling loop of the buffer does not
end for needed sizes of 2^63 and more (`GrowthLoopEnds`).

## Model

| member | source | states |
|---|---|---|
| Wire.SplitLine | src/tcp_client.cpp:391-444 | the line before the first CRLF and all after it, and None exactly when there is no CRLF |
| Wire.SplitLineAppend | src/tcp_client.cpp:405-428 | any text without CRLF, even one ending in CR, is read back whole whatever follows |
| Decimal.ParsePrinted | src/redis_protocol.cpp:701-709 | every printed int64 is parsed back to itself behind any marker byte |
| Decimal.ParseOutOfRange | src/redis_protocol.cpp:701-709 | every printed integer outside int64 is refused |
| Decimal.StrtolReads | src/redis_protocol.cpp:701-709 | what every text converts to: blanks, a sign or none, digits or none and anything after them give the decimal value, 0 without digits, refused exactly outside int64 |
| Decimal.LenientInteger | src/redis_protocol.cpp:701-709 | leading white space and anything after the digits are ignored, so malformed numbers are accepted |
| Decimal.OneBadNumberSpoilsTheRest | src/redis_protocol.cpp:705-707 | since errno is looked at but never cleared, over lines between which no other call writes errno a number is accepted exactly when it and all numbers before it are in range |
| Os.TimedWriten | src/os.cpp:267-300 | exactly what is sent, returned and left in errno: the text, cut to an int, when the kernel takes that much before anything stops the loop, with errno kept or EINTR after an interruption, otherwise what it took, with -1 exactly for a failed send and the errno of what stopped it |
| Os.WhatStops | src/os.cpp:275-296 | an interruption and a partial send let the loop go on, adding nothing or their bytes; a failed poll, a failed send and a send of 0 end it |
| Os.WholeWhenShort | src/tcp_client.cpp:337-338 | a write reported complete has sent the whole text exactly when it is shorter than 2^31 bytes |
| Links.SentWhole | src/redis_protocol.cpp:206-216 | a request below 4 GiB that is reported as sent has been sent whole |
| TcpBuffer.TcpClientBuffer.Prepare | src/tcp_client.cpp:207-229 | terminates, keeps the unread bytes, yields the requested room, keeps the capacity 512 times a power of two, and grows to at most twice what is needed |
| TcpBuffer.TcpClientBuffer.Produce | src/tcp_client.cpp:231-239 | the received bytes join the end of the unread ones |
| TcpBuffer.TcpClientBuffer.Consume | src/tcp_client.cpp:241-256 | hands out the first unread bytes and keeps the others, whether or not the buffer is drained or rewound |
| TcpBuffer.TcpClientBuffer.Clear | src/tcp_client.cpp:201-205 | empties the buffer and returns to 512 bytes |
| TcpBuffer.GrowthLoopEnds | src/tcp_client.cpp:215-221 | in 64-bit arithmetic the doubling loop ends, from every reachable capacity, exactly when the needed size is below 2^63 |
| Tcp.TcpClient.Fill | src/tcp_client.cpp:374-388 | recv always gets a nonempty region; what it delivers moves from socket to buffer and the unconsumed stream is unchanged; no bytes closes |
| Tcp.TcpClient.Read | src/tcp_client.cpp:350-389 | the block and the stream left are those of the unchunked stream, and the wrapping size_t counter is the true number of missing bytes whenever it is used |
| Tcp.TcpClient.ReadLine | src/tcp_client.cpp:391-444 | the line and the stream left are those of the unchunked stream, also when the delimiter is split between chunks |
| Tcp.TcpClient.Write | src/tcp_client.cpp:332-348 | the connection stays open exactly when it was open and the kernel takes the whole text, cut to an int's length; exactly that is then sent; the error code is exact, also where it is 0 on a lost connection |
| Tcp.TcpClient.Connect | src/tcp_client.cpp:284-330 | drops all buffered bytes and starts on the new stream, or ends closed |
| Tcp.TcpClient.Close | src/tcp_client.cpp:446-454 | closed, with nothing left to read |
| Tcp.ReplayReads | src/tcp_client.cpp:350-444 | every run of read_line and read up to the first failure gives what the whole stream gives, for every cut into chunks |
| Resp.NestedKeepsMode | src/redis_protocol.cpp:383-386 | elements of arrays, however deep, leave transaction_mode_ alone |
| Resp.ModeAfterReply | src/redis_protocol.cpp:339-352 | what a top-level reply does to transaction_mode_ for every command of the table, and which outputs MULTI, DISCARD and EXEC accept |
| ReplyTheory.ParsePrint | src/redis_protocol.cpp:321-525 | parsing the encoding of any tree followed by any bytes is reading the tree: same output, mode, refusal or closing, and exact bytes left |
| ReplyTheory.ReadBulksPrinted | src/redis_protocol.cpp:621-699 | a multi-bulk body gives back its items in order with nils, exactly when all elements are nil or nonempty bulks |
| ReplyTheory.EncodingInBytes | src/redis_protocol.cpp:324-332 | the encodings read by the parser, byte by byte |
| ReplyTheory.FixedEncodings | src/redis_protocol.cpp:324-332 | the bytes of a nil bulk, a nil array and OK |
| RoundTrip.ReplyRoundTrip | src/redis_protocol.cpp:321-525 | a command accepts an encoded reply exactly when its entry in the table says so: a status, an integer, a nonempty or nil bulk, bulks, any plain array, or anything plain, and only a status when queued in a transaction; it then returns that tree, in the array form of its type, and leaves exactly the following bytes |
| RoundTrip.EmptyBulkCloses | src/redis_protocol.cpp:587-593 | a zero-length bulk closes the connection for every command |
| RoundTrip.UnknownLineCloses | src/redis_protocol.cpp:516-524 | an empty line, or one that starts with none of the five markers, closes the connection for every command |
| RoundTrip.BadNumberCloses | src/redis_protocol.cpp:399-410 | a number that does not fit 64 bits closes it, after any marker, and so does a bulk length below -1 |
| RoundTrip.NegativeCount | src/redis_protocol.cpp:487-509 | a count below -1 reads as an empty special multi-bulk and closes the connection otherwise |
| RoundTrip.BulkDelimiterUnchecked | src/tcp_client.cpp:365-371 | a bulk is accepted whatever its two trailing bytes are |
| RoundTrip.FramingSafety | src/redis_protocol.cpp:321-525 | for every command, mode and reply, reading ends closed or exactly at the reply boundary, exactly unless the first stopping leaf of a special multi-bulk is an error line with more leaves after it |
| RoundTrip.NestedErrorLosesFraming | src/redis_protocol.cpp:498-503 | an EXEC reply that starts with an error leaves all its other elements unread on an open connection |
| Streaming.ReadReplyGrows | src/redis_protocol.cpp:321-525 | the parser never looks past what it consumes: what it reads from a stream it reads from every longer one |
| Streaming.CutReplyCloses | src/redis_protocol.cpp:321-525 | a reply cut off anywhere closes the connection, for every command and mode in which it does not lose framing |
| Request.RequestRoundTrip | src/redis_protocol.cpp:175-217 | the client's own readers give back command name and arguments of any binary content and the bytes after them, exactly when no word is empty |
| Request.RequestsRoundTrip | src/redis_protocol.cpp:175-217 | a concatenation of requests decodes to exactly that list of requests |
| Request.UniqueDecoding | src/redis_protocol.cpp:185-204 | different lists of requests have different bytes |
| Request.RequestInBytes | src/redis_protocol.cpp:185-204 | the request byte by byte: the count of name and arguments, then length and bytes of each in order |
| Request.ArgcRule | src/redis_protocol.cpp:711-745 | an exact count, at least a count for a negative argc, no check for ARGC_NO_CHECKING |
| Links.RequestHoldsCommand | src/redis_protocol.cpp:175-204 | the request of a command decodes to its name and its arguments in order, exactly when none is empty |
| Pipeline.PipelineMeaning | src/redis_protocol.cpp:140-173 | against every deterministic in-order server a pipeline succeeds exactly when its checks pass and the commands one by one succeed, with the same outputs and final mode and no reply left |
| Pipeline.PipelineRefusal | src/redis_protocol.cpp:160-170 | the reading half told from the replies: it succeeds exactly when all are accepted and all checks pass; commands before the first failing one hold their replies, later ones are untouched; a failing error line is that command's output and exactly the later replies stay unread |
| Pipeline.PipelineReads | src/redis_protocol.cpp:160-170 | the reading half ends closed or with all replies read exactly unless the first reply not accepted is refused with more still to come |
| Pipeline.PipelineFraming | src/redis_protocol.cpp:140-173 | exec_pipeline ends closed or with no reply outstanding to a request it wrote exactly unless a wrong argument count follows a written command, or the first reply not accepted is an error line or stops at one, with more still to come of later replies or of the same one |
| Pipeline.PipelinesThatLosePlace | src/redis_protocol.cpp:147-163 | the three ways to lose it: an error reply to the first of two commands, a wrong count in the second, an EXEC answered by an array that starts with an error |
| Pipeline.PipeWritesExact | src/redis_protocol.cpp:145-158 | the writing half succeeds exactly when the connection is open and every count, write and check succeeds; then exactly all requests were sent |
| Pipeline.PipeWritesStopped | src/redis_protocol.cpp:147-148 | it fails on an open connection exactly when the first command that does not pass has a wrong argument count; then exactly the requests before it are sent and only its output is set |
| Protocol.RedisProtocol.ReadReplyInto | src/redis_protocol.cpp:321-525 | result, output, stream, mode and error are those of the pure parser; whatever counts are declared, at most one recursive call is made for every 3 bytes taken off the connection, and one more when it closes |
| Protocol.RedisProtocol.ReadMultiBulkBody | src/redis_protocol.cpp:621-664 | the loop over the bulks of a multi-bulk computes the pure reader and closes on any failure |
| Protocol.RedisProtocol.ReadBulkBody | src/redis_protocol.cpp:575-619 | the body of a bulk is that of the pure reader; nil consumes nothing; anything else closes |
| Protocol.RedisProtocol.WriteCommand | src/redis_protocol.cpp:175-217 | a wrong argument count sends nothing; otherwise the kernel's answers decide: exactly the request is added to the bytes sent, or the connection is lost, with or without an error |
| Protocol.RedisProtocol.ExecCommand | src/redis_protocol.cpp:105-115 | connection, bytes sent, result and output after every command, successful or not, as a function of the stream and of the kernel's answers |
| Protocol.RedisProtocol.ExecPipeline | src/redis_protocol.cpp:140-173 | success, bytes sent, connection and the output of every command, for every outcome of the writes, checks and replies |
| Protocol.RedisProtocol.AssureConnect | src/redis_protocol.cpp:42-61 | the three outcomes, with transaction_mode_ kept by a reconnection |
| Protocol.RedisProtocol.Connect | src/redis_protocol.cpp:63-76 | the new stream, with transaction_mode_ untouched, or everything reset on failure |
| Protocol.RedisProtocol.Close | src/redis_protocol.cpp:78-83 | closed and out of transaction mode |
| History.ModeIsHistory | src/redis_protocol.cpp:383-386 | on every run transaction_mode_ is true exactly when the latest event among '+' to MULTI, '+' to DISCARD, array to EXEC and close is the MULTI one |
| History.SentIsRequests | src/redis_protocol.cpp:185-216 | on every run the bytes sent on an open connection are exactly its complete requests, and decode to the names and arguments of the commands |
| History.ExecIsRun | src/redis_protocol.cpp:105-115 | exec_command is one of these runs, for every outcome of the write |
| History.PipelineIsRun | src/redis_protocol.cpp:140-173 | exec_pipeline is one of these runs as well, for every outcome |
| History.StaleModeAfterReconnect | src/redis_protocol.cpp:63-76 | after a reconnection in transaction mode the first bulk reply is refused, which the same command outside that mode accepts |
| History.FramingRun | src/redis_protocol.cpp:105-173 | every run of exec_command, with wrong counts, lost writes, accepted, refused, mistyped and cut-off replies, of exec_pipeline, and of close and reconnection, ends closed or with no reply outstanding, as long as no command meets a reply that loses framing for it in its mode and no pipeline loses its place |
| EndToEnd.Exchange | src/redis_protocol.cpp:105-115 | over any chunks and any kernel a command succeeds exactly when the kernel took its request and the reply is acceptable, then holds that reply; exactly the request was sent, and the connection ends closed or at the next reply |
| EndToEnd.PipelineExchange | src/redis_protocol.cpp:140-173 | over any chunks and any kernel, against a deterministic server, a pipeline succeeds exactly when the kernel takes every request, every check passes and the commands one by one would succeed, with the same outputs and mode, exactly the requests sent and no reply left; failed or not, it ends closed or with no reply outstanding exactly unless it loses its place |
| SessionSpec.SelectKeepsDb | src/redis.cpp:1752-1775 | select keeps client and server in one database, the server's being the one that the bytes sent ask for, exactly unless it reconnected by itself and was refused with a database to restore |
| SessionSpec.RefusedSelectLosesDb | src/redis.cpp:1752-1775 | the failing case: any client with a selected database and a lost connection whose select is refused on the new one then runs its next data command in database 0 |
| SessionSpec.AssureSelects | src/redis.cpp:58-74 | after a successful assure_connect the connection is open, in the client's database, with nothing left to select |
| SessionSpec.SelectReaches | src/redis.cpp:1757-1758 | the bytes that select sends are whole and name its index, so that a server that carries them out is in that database |
| SessionSpec.CommandsRunInTheirDatabase | src/redis.cpp:43-74 | over every run of data commands, multi, adds, exec, discard, selects, closes and losses each executed data command runs in db_index_, and an added one does exactly when db_index_ is 0 or db_index_select_failure_ is clear |
| SessionSpec.AddsAfterMulti | src/redis.cpp:2171-2190 | after a successful multi, with no select refused since, every command runs in db_index_, added ones too |
| SessionSpec.AddInWrongDatabase | src/redis.cpp:2175-2183 | any client with a nonzero database whose first SELECT is refused then adds a command that the server executes in database 0 |
| SessionSpec.ExplicitConnectLosesDb | src/redis.cpp:76-79 | an explicit connect keeps the selection invariant exactly for clients whose database is 0 or still marked for selection |
| SessionSpec.QueuedSelectMisleads | src/redis.cpp:1759-1774 | SELECT inside MULTI fails yet moves the client; the invariant survives exactly when the server is in database 0 |
| Transactions.MultiOpens | src/redis.cpp:2117-2127 | MULTI answered OK consumes that reply, keeps the pending list and opens transaction mode |
| Transactions.MultiRefused | src/redis.cpp:2117-2127 | MULTI refused changes nothing but the last error; a status other than OK fails too, yet enters transaction mode |
| Transactions.NotConnected | src/redis.cpp:2171-2252 | without a connection add, exec and discard fail and change nothing but the last error |
| Transactions.TransactionRequests | src/redis.cpp:2122-2240 | MULTI, EXEC and DISCARD as bytes on the wire |
| Transactions.OnlyStatusInTransaction | src/redis_protocol.cpp:339-352 | in transaction mode common commands with a fixed reply type accept exactly a status |
| Transactions.OneAdd | src/redis.cpp:2154-2190 | an add in a transaction consumes one answer and is appended exactly when that is a status; the form with a format string then returns true, the other one false |
| Transactions.AddsQueueAnswered | src/redis.cpp:2171-2190 | after any adds, told from the server's answers, the pending list has grown by exactly the commands answered by a status, in order; refused ones and wrong counts are not appended |
| Transactions.TransactionPairing | src/redis.cpp:2192-2231 | a whole transaction told from the server's stream: EXEC succeeds exactly when its array is plain and has one element per pending command and per add answered by a status; then command i gets element i, arrays of bulks as mbulks, the list ends empty and the stream is at the next reply |
| Transactions.NormalizeSpecial | src/redis_cmd.cpp:420-456 | conversion turns exactly the arrays of plain bulks into mbulks, order and nils kept |
| Transactions.TransactionTransparent | src/redis.cpp:2211-2219 | a command gets the same output in a transaction as outside exactly unless a multi-bulk reply is nil or the type is not fixed and the reply is an array of bulks |
| Transactions.NilExecKeepsPending | src/redis.cpp:2226-2230 | a nil EXEC fails and keeps the pending list |
| Transactions.AbortedExecKeepsMode | src/redis.cpp:2199-2201 | an EXEC answered by an error keeps the pending list and transaction mode, so that the next bulk reply to a common command closes the connection |
| Transactions.LeftoversPoison | src/redis.cpp:2204-2205 | with a nonempty pending list at the start no transaction that the server carries out succeeds, and the list only grows |
| PendingQueue.StepMatch | src/redis.cpp:2171-2252 | one call keeps the pending list equal to what the server has queued on this connection exactly unless it is a data command or SELECT that the server queues, a MULTI answered OK with commands pending, an add outside MULTI, an EXEC that fails with commands pending, or a select that reconnects with commands pending |
| PendingQueue.PendingIsQueue | src/redis.cpp:2117-2252 | over every run of the client's calls the pending list is all along the server's queue exactly when no call of the run is one of those |
| PendingQueue.QueueDecidesExec | src/redis.cpp:2204-2223 | EXEC answered by one element per queued command succeeds exactly when they are plain and as many commands are pending; each command gets its own reply exactly when the pending list is the queue |
| PendingQueue.WrongPairing | src/redis.cpp:2204-2223 | after a nil EXEC and a data command in the next transaction, EXEC succeeds and hands the reply of that command to the one left over |
| Transactions.DiscardEnds | src/redis.cpp:2233-2252 | DISCARD answered OK empties the list and ends the mode; refused, it changes neither |
| SessionSpec.ErrorReplyIsKept | src/redis_protocol.cpp:363-368 | an error line becomes output and last error of any command and only it is consumed |
| Session.Redis2.Select | src/redis.cpp:1752-1775 | the session after select, as a function of the network alone |
| Session.Redis2.AssureConnect | src/redis.cpp:58-74 | the session after assure_connect, as a function of the network alone, with on_reset on reconnection only |
| Session.Redis2.OnReset | src/redis.cpp:43-48 | the pending list is dropped and a nonzero database marked for selection |
| Session.Redis2.Command | src/redis.cpp:155-168 | any command through assure_connect, up to its output, as a function of the network alone |
| Session.Redis2.StartMulti | src/redis.cpp:2117-2127 | MULTI through assure_connect; the pending list survives unless it reconnected |
| Session.Redis2.AddCommand | src/redis.cpp:2154-2190 | a command is appended exactly when its execution succeeds |
| Session.Redis2.ExecTransaction | src/redis.cpp:2192-2231 | the pending command objects go to the caller with their outputs, or stay pending |
| Session.Redis2.DiscardTransaction | src/redis.cpp:2233-2252 | the session after discard |
| Hash.Time33 | src/redis_cmd.cpp:483-520 | the unrolled loop and its fall-through tail give 33^length times 5381 plus the polynomial of the key in 33 over signed chars, modulo 2^32; the empty key gives 0 |
| Hash.HashOfConcat | src/redis_cmd.cpp:483-520 | the hash of a concatenation is 33^length times the first hash plus the polynomial of the second text |
| Replicas.AcceptedShape | src/redis_partition.cpp:61-91 | a configuration is accepted exactly when the partitions are between 1 and the hosts and hosts / partitions divides the hosts; it then has that many equal groups covering all hosts, each with at least the partitions asked for, and exactly that many exactly when they divide the hosts |
| Replicas.KeyListIsItsClass | src/redis_partition.cpp:93-127 | the list of a key is a rotation without duplicates of exactly the hosts of its residue class |
| Replicas.GroupBlock | src/redis_partition.cpp:177-203 | the block of a group meets each class exactly once |
| Partition.NewRedis2P | src/redis_partition.cpp:223-238 | a client exists exactly when hosts and partitions come out even; it has hosts / partitions groups, covers all hosts and starts as the empty map |
| Partition.Redis2P.KeyClient | src/redis_partition.cpp:93-127 | host hash(key) mod host_num of every group, from the seed's group on |
| Partition.Redis2P.KeyPlace | src/redis_partition.cpp:218-221 | a host holds a key exactly when the map does and the hash of the key falls into the class of the host |
| Partition.Redis2P.GroupClient | src/redis_partition.cpp:177-203 | the hosts of the seed's group, the i-th in class i |
| Partition.Redis2P.ForEachGroupWrite | src/redis_partition.cpp:21-37 | true exactly when every replica answers, and then the cluster is the updated map; always exactly the hosts up to the first failure are changed |
| Partition.Redis2P.PartialWrite | src/redis_partition.cpp:27-35 | a write that stopped on the way leaves the cluster one map exactly when no or every replica carried it out or it changes nothing |
| Partition.Redis2P.Set | src/redis_partition.cpp:580-583 | the map with the key set, or the key alone touched in its class |
| Partition.Redis2P.Del | src/redis_partition.cpp:287-291 | the map without the key, reporting whether it was there |
| Partition.Redis2P.DelMany | src/redis_partition.cpp:293-326 | refuses the empty list, changing nothing; otherwise removes the keys and counts the distinct ones that were present; a failure stops at the first key not answered everywhere, with its effect exact |
| Partition.Redis2P.Get | src/redis_partition.cpp:39-52 | the map's value, exactly when some replica answers and the value is not empty |
| Partition.Redis2P.MGet | src/redis_partition.cpp:521-555 | positional, all or nothing |
| Partition.Redis2P.MSet | src/redis_partition.cpp:557-573 | the map after setting the keys one after the other; a failure stops at the first key not answered everywhere, with its effect exact; unequal lengths change nothing |
| Partition.Redis2P.Keys | src/redis_partition.cpp:353-380 | every matching key of the map exactly once, or nothing |
| Partition.LastWriteWins | src/redis_partition.cpp:563-571 | a key set several times ends with its last value and other keys are untouched |
| ClusterRun.RunAll | src/redis_partition.cpp:21-52 | all writes of a run of set, del, mset, get, mget and keys succeed exactly when the network answers them everywhere; then all results and the final contents are those of one map and exactly the unanswerable reads fail; up to a failed write the results are the map's as well |
| Pool.PoolOwnership | src/redis_tss.cpp:72-116 | over every interleaving of the documented usages and thread exits each created client is at exactly one place and the free list never exceeds pool_size_ |
| Pool.QuietPlaces | src/redis_tss.cpp:150-182 | between operations that place is the free list, one slot, one caller's hands, or deleted |
| Pool.SlotStays | src/redis_tss.h:48-56 | until its own put or exit a thread keeps its client whatever the others do |
| Pool.MisuseDoublesOwnership | src/redis_tss.h:48-56 | returning a thread's client as if it were not thread-specific gives it two owners |
| Pool.ImproperPutDoubles | src/redis_tss.cpp:170-182 | putting back any client not got in a documented way gives it two owners |
| Pool.RedisTss.Get | src/redis_tss.cpp:150-168 | get is a run of the atomic steps and repeated thread-specific gets return the same client |
| Pool.RedisTss.Put | src/redis_tss.cpp:170-182 | NULL is ignored; the client joins the free list, or is deleted when that is full, and leaves the thread's slot exactly when it was put back as the thread's own; ownership is kept exactly for clients got in a documented way, for which put is a run of the atomic steps |
| Pool.RedisTss.PutFreeRedis | src/redis_tss.cpp:101-116 | the client joins the free list or, when that is full, is deleted |
| Pool.RedisTss.GetFreeRedis | src/redis_tss.cpp:72-81 | the last free client, if any |

## Left out

- TcpBuffer.TcpClientBuffer.Prepare: its sizes are unbounded integers, so memory never runs out; `GrowthLoopEnds` says for which sizes the 64-bit loop differs, which a bulk announced with 2^63 - 2 bytes or more reaches.
- Os.TimedWriten: `send` never takes more bytes than it was given; `timed_readn` is not modelled, since nothing calls it.
- Protocol.RedisProtocol.ReadMultiBulkBody: does not model `mbulks->reserve` of the announced count, which throws for about 2^60 and more, or when memory runs out, and leaves the connection open.
- Links.Cmd.CountOk: does not cast the argument count to `int`; it differs from 2^31 arguments on, whose request is cut as well.
- Session.Redis2.AddCommand: takes the command by value; what the swap leaves in the caller's object and the object leaked by a refused command are not modelled.
- Pool.RedisTss.Put: not for clients that were deleted already, whose pointers dangle; destruction of the pool is not modelled.
- Partition.Redis2P.Keys: assumes that each server lists its matching keys once; patterns are an arbitrary predicate on keys.
- SessionSpec.CommandsRunInTheirDatabase: data and added commands are those that are not SELECT, and the server switches exactly when it answers SELECT by +OK.
- PendingQueue.PendingIsQueue: data and added commands are those that are not MULTI, EXEC or DISCARD, and the server's queue is told from the answers that the client reads.
- `Redis2::exec_pipeline`: assure_connect and then the pipeline modelled here; it is not a call of the session runs.
- Transactions.TransactionPairing: on a connection that stays open and sends every request; a lost one ends the transaction closed.
- errno left over from an earlier call: the parser is modelled with a clean errno on every number; `OneBadNumberSpoilsTheRest` says what a left-over one does.
- Error texts made by the client: they are one value, `Local`; only texts sent by the server are kept.
- blocking_mode_, timeouts and wall-clock time: they only decide when a network call fails, which is a parameter.
- Sockets, DNS resolution and connecting: one outcome per attempt to connect.
- Formatted commands (`write_commandv`): formatting and splitting into words come before the words modelled here.
- The table of commands: any table in which MULTI, DISCARD and SELECT expect a status and EXEC a special multi-bulk.
- The one-shot wrappers of `Redis2` and `Redis2P` other than those listed: the same shape with other commands.
- `Redis2P` on top of `Redis2`: a host is a map with calls that are answered or lost before or after being carried out.
- `RedisOutput` as a union of owned pointers: outputs are values, so ownership, moving getters and deletion have no counterpart.
