# cohttpd in Dafny

A model of the cores of cohttpd, a coroutine HTTP server, and of the three asio 1.10.8 buffer algorithms it
vendors, with proofs of what they promise. `dafny verify dfyconfig.toml` checks everything.

| files | what they model |
|---|---|
| `Basics.dfy` | notions shared by the other files |
| `RedisProtocol.dfy`, `RedisHistory.dfy`, `RedisModule.dfy` | the redis request/reply exchange: one worker per endpoint with a bounded order channel, one bounded reply channel per connection, as interleaved steps with timeouts; the protocol as a state machine and the module's fields as a class whose methods are its steps and compose to the request handler |
| `Connection.dfy` | one connection: the two receive loops over a list of fixed-size chunks, leftover bytes between pipelined requests (section 6.3.2 of RFC 7230), idle and life timers |
| `Words.dfy`, `Bits.dfy`, `PopCount.dfy`, `BlockShifts.dfy`, `Bitset.dfy` | the word-packed bitset, refining plain bit sequences |
| `IoBufs.dfy`, `IoBuf.dfy` | the chunk pool and one chunk with its cursors |
| `LpmTree.dfy` | the longest-prefix-match tree, refining a map from keys to their latest values |
| `Codec.dfy` | the parser callbacks, header sorting and lookup, body slices |
| `Response.dfy`, `Page.dfy` | the response writer and a whole page with its Content-Length (section 3.3.2 of RFC 7230) |
| `Fragments.dfy`, `BuffersIterator.dfy`, `BufferCopy.dfy`, `StreamBuf.dfy` | asio's iterator over a buffer sequence, copying between sequences, and the streambuf |

Environment. Foreign code enters only through contracts, and the model makes no use of how it would meet them.
http_parser consumes at most the bytes offered, all of them if it sets no error, and stops once at the end of the
headers and once at the end of the message (`Connection.ParserStep`). A successful read on a non-empty room delivers
between 1 and that many bytes. What the parser consumes and the socket delivers is recorded by those two contracts
alone (`Connection.Execute`, `Connection.SocketRead`). Timers may fire wherever the coroutine is suspended. Channels
are bounded FIFOs, and a timed-out push or pop changes nothing. `std::sort` yields some sorted permutation. The GET
that redis runs right after the SET of the same key on one context returns the value set. `memcpy` needs disjoint
ranges.

Where the code and its intent part, the code is modelled as written and the exact condition under which it does what
is meant is proved: `RightShiftExactly` (operator>>= is right only for certain shapes), the bitset constructor and
`Pool.Acquire` (when all chunks are out, a pool whose count is no multiple of 64 takes a spare bit past its count, for
a chunk behind the arena, instead of falling back to the heap), `CombinedBits` (|= and ^= on unequal sizes),
`FailedPrepareKeepsExactly` (a throwing `prepare` has already moved the bytes, as in `PrepareLoses`),
`PrintfCountsExactly` and `PrintfIntactExactly` (a text that fills its room loses its last character), `WritePage` (a
header block that fills its chunk is cut), `ContentType` (it writes behind a chunk too full for its first text, as in
`OverrunInSmallChunk`), `FragmentationInvisible` (a header whose value never gets a callback), `OwnReplyExactly` and
`OnRequestHeader` (after a timed-out pop replies belong to earlier transactions, as in the run of
`StaleReplyAfterTimeout`), and `CloseFaultsExactly` and `FaultExactly` (a reply entry erased while a worker serves it,
as in the run of `FaultAfterTimeout`).

## Model

| member | source | states |
|---|---|---|
| RedisProtocol.StepKeeps | src/modules/redis.cpp:95-159 | every step of every interleaving keeps the invariant: for each open connection, the replies to its accepted commands are the popped ones, then the queued ones, then those in the worker's hands, then those to commands still queued; as long as no pop times out exactly the awaited replies are outstanding |
| RedisProtocol.RunKeeps | src/modules/redis.cpp:65-159 | the invariant in every state any run reaches before the 32-bit connection counter wraps |
| RedisProtocol.OwnRepliesWithoutTimeout | src/modules/redis.cpp:150-158 | in runs in which no pop times out the two pops of a transaction return the replies to its own SET and GET, and at most two replies are queued per connection |
| RedisProtocol.PoppedIsPrefix | src/modules/redis.cpp:95-158 | timeouts included, the replies popped on an open connection are a prefix, in order, of the replies to the commands accepted for it, all of them its own |
| RedisProtocol.OwnReplyExactly | src/modules/redis.cpp:154-158 | the next reply is the one waited for if and only if no reply to an earlier command of the connection is outstanding |
| RedisProtocol.StaleReplyAfterTimeout | src/modules/redis.cpp:154-158 | a run in which both pops time out leaves the next transaction with the previous SET reply in front of its own replies |
| RedisProtocol.CloseFaultsExactly | src/modules/redis.cpp:97-129 | closing a connection erases an entry a worker holds an iterator to if and only if more replies are outstanding for it than are delivered or belong to queued commands |
| RedisProtocol.FaultExactly | src/modules/redis.cpp:97-129 | any run, timeouts included, erases an entry in use if and only if one of its steps closes a connection in that situation |
| RedisProtocol.NoFaultWithoutTimeout | src/modules/redis.cpp:97-129 | in particular no run in which no pop times out does |
| RedisProtocol.FaultAfterTimeout | src/modules/redis.cpp:97-129 | a run in which both pops time out and the connection then closes does erase it |
| RedisProtocol.WaitingCanGoOn | src/modules/redis.cpp:95-157 | as long as no pop times out the exchange cannot get stuck: a waiting connection can pop, or its worker can take an order or deliver |
| RedisProtocol.RunBounded | src/modules/redis.cpp:122-155 | in every run no reply channel holds more than 256 replies and no order channel more than its capacity |
| RedisProtocol.WorkerStuckExactly | src/modules/redis.cpp:106-112 | timeouts included, a worker with a command in hand is stuck if and only if the reply channel of its connection holds 256 replies |
| RedisProtocol.ConnIdRepeats | src/server.cpp:61-84 | two connections of a process have the same id exactly when their numbers agree modulo 2^32, so none of the first 2^32 do |
| RedisProtocol.ConnIdParts | src/server.cpp:61-84 | an id is the process number above a 32-bit counter that starts at 1 and comes to 0 last |
| RedisProtocol.IssuedExactly | src/server.cpp:61-84 | the ids the invariant admits are exactly those of the connections accepted so far |
| RedisProtocol.OthersKeep | src/modules/redis.cpp:95-159 | whatever workers and other connections do, the invariant holds and the record of a connection in between its own steps is untouched |
| RedisProtocol.HomeIsRemainder | src/modules/redis.cpp:153 | the endpoint the state machine routes a connection to is cid % N |
| RedisHistory.RunRecorded | src/modules/redis.cpp:95-159 | after any run, from its events alone: the open connections are those opened and not closed since; each has sent one command per push in time, numbered by its requests; the replies popped from it and queued on it are null exactly where redis gave none, in order |
| RedisHistory.CloseErases | src/modules/redis.cpp:127-130 | a close takes that connection and its reply channel away and leaves every other one, the orders and the workers as they are |
| RedisHistory.DequeueTakes | src/modules/redis.cpp:95-100 | a worker takes one command off its own channel and stays free exactly if the connection is gone |
| RedisHistory.EnabledExactly | src/modules/redis.cpp:95-157 | when each step can be taken: a push blocks exactly at 1024 commands, a delivery exactly at 256 replies, a pop exactly on an empty channel |
| RedisModule.ValueDistinct | src/modules/redis.cpp:141-146 | no two transactions store the same value |
| RedisModule.VerdictExactly | src/modules/redis.cpp:177-184 | the page says "same" exactly for the reply to the transaction's own GET |
| RedisModule.SameWithoutTimeout | src/modules/redis.cpp:156-184 | in runs in which no pop times out the second reply carries the value the transaction stored and is null exactly if redis gave none, so the page says "same" whenever redis answered |
| RedisModule.RedisModule.OnRequestHeader | src/modules/redis.cpp:150-184 | the whole exchange of a request under arbitrary interference and timeouts: the first reply is its own if and only if nothing was outstanding before; the second if and only if, besides, the first pop got a reply; the page says "same" exactly then; both are the replies at the head of the channel; what is accepted and not popped stays outstanding |
| RedisModule.RedisModule.ConnectInit | src/server.cpp:79-84 | the counter with its wrap hands out the id of the state machine, and opening is its Open step |
| RedisModule.RedisModule.ConnectExit | src/modules/redis.cpp:127-130 | closing is the Close step: the entry is gone and every other one is unchanged |
| RedisModule.RedisModule.PushOrder | src/modules/redis.cpp:152-155 | the timed push, to endpoint cid % N, is the Push or the PushTimeout step |
| RedisModule.RedisModule.PopReply | src/modules/redis.cpp:156-157 | a timed pop is the Pop or the PopTimeout step; it returns and removes the reply at the head, and whose reply that is |
| RedisModule.RedisModule.WorkerDequeue | src/modules/redis.cpp:95-100 | taking an order, dropped when its connection is gone, is the Dequeue step |
| RedisModule.RedisModule.WorkerDeliver | src/modules/redis.cpp:106-112 | one turn of the reply loop is the Deliver step: the reply goes behind those already queued, null exactly if redis gave none |
| Connection.Connection.Serve | src/server.cpp:300-333 | over a keep-alive run the bytes received are the parts consumed by one request after the other, one part per request run, and then the unread bytes: none lost, repeated or reordered, where delivery is what the socket and consumption what the parser recorded; every request but the last kept the connection, and its module asked for that |
| Connection.Connection.Turn | src/server.cpp:309-325 | every request starts with a list of exactly one chunk and leaves an empty list or one chunk with leftover bytes; the part it records is what it consumed |
| Connection.Connection.ProcessRequest | src/server.cpp:144-298 | terminates; the list never exceeds 2 + (max_header_size + max_body_size) / iobuf_size chunks; the connection is kept if and only if the request stayed within both limits, neither parser nor socket failed and the module asks for it, each asked-for callback, header and body, runs exactly once and one response is written exactly when both halves were received |
| Connection.Connection.ReceiveLoop | src/server.cpp:157-250 | one receive phase: a successful read decreases the remaining allowance, all chunks but the last stay fully read, and it succeeds exactly when neither socket, parser nor limit stopped it |
| Connection.Connection.Parse | src/codecs.cpp:33-48 | the read cursor moves by exactly the bytes the parser consumed, so consumed and unread bytes stay the bytes received; without a stop or an error nothing is left unread |
| Connection.Connection.DropRead | src/server.cpp:316-324 | drops the read chunks and keeps the last one exactly when it has unread bytes |
| Connection.Connection.Half | src/server.cpp:157-206 | module callbacks run with no idle timer armed, and only after a complete phase |
| Connection.Connection.StartTimer | src/server.cpp:363-368 | afterwards exactly the new idle timer is armed |
| Connection.Connection.AtMostOne | src/server.cpp:335-387 | at most one idle and one life timer can fire at any time |
| Connection.Connection.Destroy | src/server.cpp:130-142 | after the destructor no timer can fire on the connection |
| BlockShifts.RightShiftExactly | src/bitset.cpp:175-202 | operator>>= shifts every trimmed bitset of a size correctly if and only if the amount is whole blocks, only the last block survives, or it is one block and some bits of a three-block bitset |
| BlockShifts.LeftMovedBits | src/bitset.cpp:150-169 | the multi-word left move puts bit k - n at k and zero below n |
| Bitset.LeftShiftRight | src/bitset.cpp:144-173 | operator<<= is the left shift of the bit sequence for every size and amount, and keeps the unused bits zero |
| Bitset.ThereAndBack | src/bitset.cpp:144-202 | for whole blocks, (b << n) >> n is b with its top n bits cleared |
| Bitset.BitVector.ShiftLeft | src/bitset.cpp:144-173 | the in-place loops compute that shift |
| Bitset.BitVector.ShiftRight | src/bitset.cpp:175-202 | the in-place loops as written, and the right shift in the sound shapes |
| Bitset.BitVector.Combine | src/bitset.cpp:204-234 | the four assignment operators, also for unequal sizes; unused bits stay zero for & and - always, for bitwise or and ^ exactly when no one of the other operand spills over |
| Bitset.CombinedPositions | src/bitset.cpp:204-234 | on one size they are intersection, union, symmetric difference and difference of the sets of one positions |
| Bits.CutAndFilled | src/bitset.cpp:144-202 | shifts and resize cut off one end and fill up the other |
| Bitset.BitVector.Resize | src/bitset.cpp:285-299 | keeps the common bits and fills the new ones, trimmed |
| Bitset.BitVector.PushBack | src/bitset.cpp:307-312 | appends one bit |
| Bitset.BitVector.Append | src/bitset.cpp:314-326 | appends the 64 bits of a block at any alignment |
| Bitset.BitVector.Set | src/bitset.cpp:328-351 | changes exactly bit i |
| Bitset.BitVector.Flip | src/bitset.cpp:359-364 | inverts exactly bit i |
| Bitset.BitVector.FlipAll | src/bitset.cpp:366-372 | inverts every bit and keeps the unused ones zero |
| Bitset.BitVector.constructor | src/bitset.cpp:98-102 | all bits equal to the value; trimmed exactly when the value is false or the size a multiple of 64 |
| Bitset.BitVector.Count | src/bitset.cpp:386-401 | the byte-table count is the cardinality of the set of one positions |
| Bitset.BitVector.FindFirst | src/bitset.cpp:418-421 | the first one position, or none |
| Bitset.BitVector.FindNext | src/bitset.cpp:423-431 | the first one position after i, or none |
| Bitset.LowestBit | src/bitset.cpp:433-440 | the position of the lowest one bit |
| Bitset.Less | src/bitset.cpp:270-283 | less exactly when the first differing block is lower, or, with all common blocks equal, the size |
| Bitset.LessDecided | src/bitset.cpp:270-283 | the first differing block decides, the lower block being the lower bitset; if all common blocks agree the size does |
| Bitset.LessTotal | src/bitset.cpp:260-283 | that order is total, with operator== as its equality |
| Bitset.LessTransitive | src/bitset.cpp:270-283 | and transitive |
| Bits.SameViewSameBlocks | src/bitset.cpp:260-263 | trimmed bitsets of one size are equal as vectors exactly when they are equal bit by bit |
| Bits.ScanIsExact | src/bitset.cpp:418-431 | find_first and repeated find_next visit exactly the set positions, in strictly increasing order, count() of them, and then stop |
| PopCount.TableIsOnes | src/bitset.cpp:11-23 | every table entry is the number of ones of its index |
| Words.IsolateLowest | src/bitset.cpp:435 | b - (b & (b - 1)) is the lowest one bit alone |
| IoBufs.ChunkLayout | src/iobufs.cpp:25-48 | chunks lie whole inside the arena and apart, inrange holds for them, and the division in release returns the acquired index |
| IoBufs.LiveChunksDisjoint | src/iobufs.cpp:25-48 | any two live arena chunks are disjoint and inside the arena |
| IoBufs.Conservation | src/iobufs.cpp:25-48 | free bits and live chunks add up to the chunk count |
| IoBufs.Pool.Acquire | src/iobufs.cpp:25-40 | takes the lowest free chunk; the heap is used only when no bit is free, and then exactly when the count is a multiple of 64 |
| IoBufs.Pool.Release | src/iobufs.cpp:42-48 | frees exactly the chunk that was acquired |
| IoBufs.Pool.constructor | src/iobufs.cpp:11-17 | all chunks free |
| LpmTree.Tree.Insert | src/lpmtree.hpp:74-90 | the heap tree again holds the map of all inserts so far, and values() their values in first-insert order |
| LpmTree.Tree.Search | src/lpmtree.hpp:92-121 | the latest value of the longest non-empty stored prefix, and exactly that prefix, empty if none |
| LpmTree.SearchMeaning | src/lpmtree.hpp:74-121 | in terms of the inserts alone: the reported prefix was last inserted with a value, and every longer inserted prefix of the query was last inserted as null |
| LpmTree.EntriesAreLatest | src/lpmtree.hpp:85 | the map keeps the value of the last insert of each key |
| LpmTree.FirstSeenComplete | src/lpmtree.hpp:87-89 | values() holds exactly the inserted values |
| LpmTree.FirstSeenOrder | src/lpmtree.hpp:87-89 | each once, in first-insert order |
| Codec.FragmentationInvisible | src/codecs.cpp:118-166 | however the text is cut into callbacks, the stored URL is the one sent, and the stored header list is the one sent if and only if every name gets a callback and every value that another header follows does |
| Codec.RefusedExactly | src/codecs.cpp:130-166 | a callback returns non-zero in exactly those runs in which a value comes before any name |
| Codec.Request.OfHeaderField | src/codecs.cpp:130-150 | the field callback, including its error return |
| Codec.Request.OfHeaderValue | src/codecs.cpp:152-166 | the value callback, including its error return |
| Codec.Request.OfUrl | src/codecs.cpp:118-128 | the URL callback |
| Codec.Request.OfHeadersComplete | src/codecs.cpp:55-59 | the fields are sorted ascending by name, byte by byte, none lost or invented |
| Codec.Request.Lookup | src/request.cpp:57-64 | after any sort of the received fields, lookup by name succeeds exactly when the name was received and returns a value received under it |
| Codec.BelowDecided | src/request.cpp:39-43 | the first differing byte decides, the lower byte being the lower name, and a proper prefix is below |
| Codec.BelowTransitive | src/request.cpp:39-43 | the name order is a strict weak order, as std::sort needs |
| Codec.BodyKept | src/codecs.cpp:168-187 | for every series of body callbacks the kept slices cover exactly the delivered bytes in order, and no two neighbours are adjacent in memory |
| Codec.Request.OfBody | src/codecs.cpp:168-187 | the body callback keeps that and bodysz is the total length |
| Codec.Request.Reset | src/request.cpp:27-37 | back to the initial state |
| Response.PrintfCountsExactly | src/response.cpp:172-199 | printf returns the number of body bytes it adds if and only if the text is at most one chunk long |
| Response.PrintfIntactExactly | src/response.cpp:183-186 | a text arrives unchanged if and only if it does not fill its room to the last byte |
| Response.LandedExactly | src/response.cpp:183-186 | a text that fits keeps every character but, if it fills its room, the last |
| Response.Response.Printf | src/response.cpp:172-199 | the retry loop over chunks adds exactly that to the body |
| Response.AddedAllCountsExactly | src/response.cpp:172-199 | over a whole series of printf calls the results add up to the body bytes if and only if every text is at most one chunk long |
| Response.AddedAllFits | src/response.cpp:180-198 | a series of texts that together leave room in the current chunk arrives whole and in order |
| Response.Response.Header | src/response.cpp:133-170 | the three prints land as one line, or it throws and nothing changes |
| Response.Response.ContentType | src/response.cpp:71-93 | two prints and one cursor move keep or drop the line as one print would; it writes behind the chunk if and only if its first text is longer than the room left |
| Response.Response.AppendHead | src/response.cpp:96-111 | a header text is added whole if it fits and dropped whole otherwise |
| Response.DecimalRoundTrip | src/modules/redis.cpp:187 | the decimal in the header denotes the number printed |
| Response.DecimalDigits | src/modules/redis.cpp:187 | it has digits only and no leading zero |
| Page.WritePage | src/modules/redis.cpp:137-188 | the body is the pieces in order, each as printf adds it, and the length declared is the body byte count if and only if every piece is at most one chunk long, as long as content_type writes inside its chunk, for which the exact condition is given; the header block is complete, Content-Length line included, if and only if it leaves a byte of its chunk, and then content_type does write inside, and the number a reader of the block finds is the number of body bytes if every piece is within a chunk |
| Page.LengthIsDeclared | src/modules/redis.cpp:187 | a reader of the block finds "Content-Length: ", digits that denote n, and the end of the block |
| Page.SmallPage | src/modules/redis.cpp:161-185 | a page that fits the chunk in hand is its first line, its second and the verdict |
| Page.OverrunInSmallChunk | src/response.cpp:80-89 | with chunks of 118 bytes the line end of content_type lands behind the chunk |
| Page.Gather | src/server.cpp:260-271 | the non-empty buffers handed to the socket are the header bytes and then the body bytes |
| IoBuf.IoBuf.PrintTwo | src/response.cpp:78-91 | two prints, the second behind the first, land as one print of both texts or are dropped whole |
| IoBuf.IoBuf.PrintThree | src/response.cpp:159-167 | consecutive prints and one cursor move equal one print of the whole |
| IoBuf.IoBuf.SetWLen | src/iobufs.hpp:115-122 | the write cursor moves if and only if there is room |
| IoBuf.IoBuf.SetRLen | src/iobufs.hpp:124-131 | the read cursor moves if and only if there is that much to read |
| BuffersIterator.RestIsUnique | src/3rd/asio-1.10.8/include/asio/buffers_iterator.hpp:306-310 | the position determines the place, so comparing positions compares iterators |
| BuffersIterator.StepsLandTogether | src/3rd/asio-1.10.8/include/asio/buffers_iterator.hpp:312-445 | a move of n ends where n single steps end, forwards and backwards |
| BuffersIterator.Iterator.Begin | src/3rd/asio-1.10.8/include/asio/buffers_iterator.hpp:126-144 | rests at position 0, empty fragments skipped |
| BuffersIterator.Iterator.End | src/3rd/asio-1.10.8/include/asio/buffers_iterator.hpp:146-163 | rests behind the last byte |
| BuffersIterator.Iterator.Dereference | src/3rd/asio-1.10.8/include/asio/buffers_iterator.hpp:300-304 | the flattened byte at the position |
| BuffersIterator.Iterator.Increment | src/3rd/asio-1.10.8/include/asio/buffers_iterator.hpp:312-333 | the resting place one position on |
| BuffersIterator.Iterator.Decrement | src/3rd/asio-1.10.8/include/asio/buffers_iterator.hpp:335-363 | the resting place one position back |
| BuffersIterator.Iterator.Advance | src/3rd/asio-1.10.8/include/asio/buffers_iterator.hpp:365-445 | the resting place n positions on or back, on any fragment list |
| BufferCopy.CopiedFlat | src/3rd/asio-1.10.8/include/asio/buffer.hpp:1693-1736 | the flattened target starts with the flattened source and keeps its own rest, and the source is unchanged |
| BufferCopy.Copy | src/3rd/asio-1.10.8/include/asio/buffer.hpp:1693-1736 | terminates and copies min(total target, total source) bytes so |
| BufferCopy.CopyLimited | src/3rd/asio-1.10.8/include/asio/buffer.hpp:2186-2231 | terminates and copies min(total target, total source, maximum) bytes so |
| BufferCopy.CopyTurn | src/3rd/asio-1.10.8/include/asio/buffer.hpp:1707-1733 | one turn, whichever of the two buffers runs out, keeps the bytes copied so far a prefix of both sequences and finishes a buffer or the allowance |
| BufferCopy.CopyOne | src/3rd/asio-1.10.8/include/asio/buffer.hpp:1295-1304 | one buffer to one buffer |
| BufferCopy.RestStep | src/3rd/asio-1.10.8/include/asio/buffer.hpp:1709-1732 | taking m bytes off a buffer, with operator+ or by going on to the next, takes m addresses off the sequence |
| StreamBuf.FailedPrepareKeepsExactly | src/3rd/asio-1.10.8/include/asio/basic_streambuf.hpp:312-332 | a prepare that throws leaves all readable contents intact if and only if nothing was consumed or the readable bytes fit in front of where they start |
| StreamBuf.PrepareLoses | src/3rd/asio-1.10.8/include/asio/basic_streambuf.hpp:204-332 | a new streambuf on which prepare, commit, consume and a throwing prepare change the readable bytes |
| StreamBuf.StreamBuf.Reserve | src/3rd/asio-1.10.8/include/asio/basic_streambuf.hpp:299-337 | throws exactly when size() + n exceeds max_size(); otherwise compaction and growth keep the readable bytes and make room for n |
| StreamBuf.StreamBuf.Prepare | src/3rd/asio-1.10.8/include/asio/basic_streambuf.hpp:204-209 | the readable bytes stay, and n bytes can be written |
| StreamBuf.StreamBuf.Commit | src/3rd/asio-1.10.8/include/asio/basic_streambuf.hpp:223-229 | the first n written bytes, or all, become readable last |
| StreamBuf.StreamBuf.Consume | src/3rd/asio-1.10.8/include/asio/basic_streambuf.hpp:238-245 | the first n readable bytes, or all, are gone; what is readable is what was committed less what was consumed |
| StreamBuf.StreamBuf.Overflow | src/3rd/asio-1.10.8/include/asio/basic_streambuf.hpp:274-297 | appends a character exactly when size() is below max_size() |
| StreamBuf.StreamBuf.Size | src/3rd/asio-1.10.8/include/asio/basic_streambuf.hpp:158-161 | size() never exceeds max_size() |

## Left out

- http_parser, libgo channels and timers, hiredis, sockets and the clock: foreign code, present only as the contracts above.
- The URL slicing in of_headers_complete and the other getters of http_request: they depend on the URL parser or return a field.
- Trailer fields delivered after the headers are complete are appended behind the sorted ones; Codec.Request.Lookup asks for sorted fields.
- http_response::append over several chunks: it assigns through a reference to the last slot and does not do what it intends.
- http_response::header for a plain value writes the same line as the formatted one but may throw one byte later; only the formatted one is modelled.
- Response.Response.Printf: an encoding error of vsnprintf (a negative result) is not modelled; it adds two empty chunks and returns -1.
- Response.Response.ContentType: after a write behind the chunk nothing is promised; whose memory it hits is not modelled.
- Integer widths: sizes and counters are unbounded except where the width decides something (64-bit words, the 32-bit connection counter, the int argument of pbump and gbump as a bound on one commit or consume).
- With no endpoint configured on_request_header exchanges nothing; the redis model has at least one endpoint.
- Connection.Connection.ProcessRequest: the chunk size is taken to be positive; with a size of zero no read could make progress.
- Connection.Connection.Serve: a run is cut off after an arbitrary number of requests, because a client may keep a connection busy for ever.
- RedisModule.RedisModule.OnRequestHeader: the steps of the others while it waits are a parameter; how they are scheduled is not modelled.
- RedisProtocol.RunKeeps: covers the first 2^32 connections of a process; after that ids repeat and a stale command can meet a new connection.
- The transaction number is a natural number; the 32-bit wrap of txnid_t needs 2^32 requests on one connection.
- Rehashing of redis_reply_, and the commands redis actually runs: replies are identified by the command they answer.
- bitset::reference, to_string and the block-range constructor; slice::hash and slice comparison.
- Forking, accept mutex, configuration, logging, module loading, the hello and default modules: plumbing, or instances of the page property.
