# Sun ONC RPC: runtime and compiler

A Dafny model of the ONC RPC runtime library and of the protocol compiler `rpcgen` under
`legacy/oncrpc`, with proofs of what they are for. Everything is checked by
`dafny verify dfyconfig.toml`; nothing here is executed.

## What is modelled and proved

**Record-marking stream** (`RecordFormat`, `RecordWriting`, `RecordReading`, `RecordStream`; `xdr_rec.c`;
section 11 of RFC 5531). Writer and reader are classes with the C structure's fields, over real buffers.
The writer's invariant is that the sink followed by the buffer is complete fragments plus one open one,
across back-patched headers, batching and flushes in the middle of a record. `RecordStream.Transfer`
composes the two: any sequence of writer calls is received as exactly the records written, for all buffer
sizes, batching choices, read splits and ways of taking the bytes. A finding about a source that fails in
the middle of a read: bytes may have been taken that the fragment's count still holds. The reader's
methods say which (`lost`), and `LostBehind` that it then comes to rest that far behind the record's end.

**UDP reply cache** (`ReplyLog`, `ReplyCache`, `UdpServer`, `Leftovers`; `svc_udp.c`). The chained hash
table, the circular FIFO and the swapping of buffers refine "search the last N replies, newest first"; the invariant
shows every FIFO entry in exactly one chain, the victim always at its chain's tail (so the "victim not
found" branch is dead) and all buffers distinct. `ReplyLog` states the property over whole runs, and
`UdpServer.Serve` carries it down to bytes received and sent, through short and undecodable datagrams,
errors of `recvfrom`, replies that do not fit and failing sends. Three findings. The search uses the call
saved at the last miss and not that of the request: `SavedCallDecides` says of every state when that
makes no difference, `WhenSearchErrs` says over every run when a request is answered with another call's
reply or its own is overlooked, and `MixedUpReply` is such a run. The length of a datagram is tested and
then forgotten, so a short header is completed from what the buffer held before (`HeardFromLeftovers`;
after an error of `recvfrom` the whole of it, `HeardAfterError`). `ReceiveDetermined` is the exact test
for when leftovers do not matter, on the datagram and the room alone: filled up with zeros and filled up
with 255s it comes to the same; `RunDetermined` lifts it to whole runs. A read or write past the end of
the buffer shrinks the stream for good: `Exhaustion` gives the exact condition under which moving back to
the start still succeeds and what is lost. A stream for which it fails is dead until its 32-bit count,
four lower with every request, wraps at the bottom and reads past the buffer (`DeadUntilWrap`, `Revives`).

**UDP and TCP clients** (`UdpXid`, `UdpWorld`, `UdpClient`, `TcpXid`, `TcpClient`; `clnt_udp.c`,
`clnt_tcp.c`, `svc_udp.c`, `svc_tcp.c`). The call loops are methods over everything `select`, `recvfrom`
and the record stream may report, with bounds on what they send. The protocols are state machines with
safety over all runs and the exact distance at which ids are confused. `UdpWorld` has a network that
loses, duplicates and reorders, and a server with the reply cache and other callers. A finding: with the
cache, a reply can be accepted that was made 65536 attempts earlier though no datagram was delayed
(`StaleResendAccepted`); `AcceptedReplyIsCurrent` holds when no reply sent again is that old, which
`ResentReply` characterises step by step. In `TcpXid` requests and replies travel over FIFO connections.
A finding: a reply whose results do not encode is sent with its header whole, the client takes it for the
reply, and the error that the server then reports under the same id is left behind (`CutOffReplyAccepted`).

**XDR filters** (`Xdr`, `XdrMem`, `Exhaustion`, `XdrPairs`, `PmapList`, `ReplyMsg`, `CallMsg`,
`UnixCred`; RFC 4506). `Xdr` gives each filter a meaning as an encoder and a decoder of values, with
round trip, alignment and canonicity for all compositions, recursive types included. `XdrMem` runs the
library's procedures step by step on the memory stream and proves them against it. On top: the reply
message's hand-written unions equal the declared ones; the unrolled call-message paths equal the generic
path for every pattern of `XDR_INLINE`; the list loop equals the recursion; the unrolled UNIX-credential
decoder equals the filter except, exactly, when a negative count of groups makes the computed length
wrap. Two more findings: `xdr_u_char` sign-extends (`WireWordIsValue` says exactly when), and a string
without a limit whose count is 2^32-1 is accepted as a null pointer. `NullString` is such an input, and
`DecodedIsTyped`, `Canonical` and, for rpcgen's routines, `ObjectIsTyped` say that this is exactly when what
is decoded is no object of its type.

**Portmapper** (`PortTable`, `PortMapper`, `RmtCall`; `portmap.c`, `pmap_rmt.c`). The linked list refines
a table and the table refines a map over all runs of SET and UNSET; GETPORT's fallback is the earliest
registration still in force; the list that DUMP sends, decoded by a client, is the table. The
back-patched argument length is a counted opaque to the receiver. A finding: the portmapper's procedure
for results of unknown length fails on lengths that are not whole units; `DecodeLenOpaque` gives the
exact condition.

**rpcgen** (`RpcSyntax`, `RpcGrammar`, `RpcComplete`, `RpcParser`, `RpcTypes`, `RpcEmit`, `RpcRun`,
`RpcEncodes`, `RpcDecodes`, `RpcFile`). Spellings of definitions are data, together with the trees they
stand for; the parser accepts exactly the spellings, each as its own tree, with one token of push-back. The
emitter's routines are data too, with an interpreter that knows only library calls, switches and access
to members by name: run as encoders and as decoders they mean the declared types, for every program the C
compiler would take. `RpcFile` is the driver's loop over a whole file, constants and programs included,
and `FileMeans` goes from the tokens of a file to what its routines put on the wire and take off it.
Where the code and the grammar in RFC 5531 and RFC 4506 differ (any declaration as a
discriminant, one value to a case, no hyper integers) the code is followed.

Conventions: `long` has 32 bits, the host is little-endian as the WIN32 target is, buffers are shorter
than 2^31, bytes are numbers below 256. Lemmas carry `{:induction false}`; inductions are written out.

## Model

| member | source | states |
|---|---|---|
| Bytes.WordRoundTrip | legacy/oncrpc/librpc/xdr_mem.c:110-134 | the word read from the four octets written is the word written |
| Bytes.WordOnto | legacy/oncrpc/librpc/xdr_mem.c:110-134 | every four octets are the octets of the word they read as |
| RecordFormat.ParseEncode | legacy/oncrpc/librpc/xdr_rec.c:115-139 | the bytes of any fragments parse back to exactly the records they complete |
| RecordFormat.Snoc | legacy/oncrpc/librpc/xdr_rec.c:45-60 | a fragment behind others ends the open record if it is marked last and extends it otherwise |
| RecordFormat.FirstRecord | legacy/oncrpc/librpc/xdr_rec.c:45-60 | the first record on a stream is the data of its fragments up to the first last one, and what lies behind is untouched |
| RecordFormat.RestConsume | legacy/oncrpc/librpc/xdr_rec.c:543-565 | taking bytes of the current fragment takes them from the front of what is left of the record |
| RecordFormat.LostBehind | legacy/oncrpc/librpc/xdr_rec.c:543-565 | a reader that has taken bytes of a record's last fragment without counting them ends up exactly that many bytes behind the record's end |
| RecordWriting.FixBufSize | legacy/oncrpc/librpc/xdr_rec.c:602-610 | a size of at least 100, whole units, less than a unit above what was asked |
| RecordWriting.RecordWriter.constructor | legacy/oncrpc/librpc/xdr_rec.c:153-213 | nothing written, no open data, the buffer of the fixed size |
| RecordWriting.RecordWriter.PatchHeader | legacy/oncrpc/librpc/xdr_rec.c:504-521 | the back-patched header makes of the open data one more fragment with the right length and mark |
| RecordWriting.RecordWriter.FlushOut | legacy/oncrpc/librpc/xdr_rec.c:504-521 | on success everything is in the sink with the open fragment closed; on failure the fragment stays open and nothing counts as written |
| RecordWriting.RecordWriter.PutLong | legacy/oncrpc/librpc/xdr_rec.c:244-266 | the word's octets are added to the current record and completed records stay as they were |
| RecordWriting.RecordWriter.PutBytes | legacy/oncrpc/librpc/xdr_rec.c:296-319 | the bytes, on failure a prefix of them, are added to the current record through any number of flushes |
| RecordWriting.RecordWriter.Inline | legacy/oncrpc/librpc/xdr_rec.c:383-410 | room inside the buffer or nothing, and the record grows by that stretch |
| RecordWriting.RecordWriter.FillInline | legacy/oncrpc/librpc/xdr_rec.c:383-410 | a store through the pointer replaces that stretch of the record and nothing else |
| RecordWriting.RecordWriter.EndOfRecord | legacy/oncrpc/librpc/xdr_rec.c:478-498 | the current record joins the completed ones and an empty one begins, whether it is sent or held back |
| RecordReading.RecordReader.FillInputBuf | legacy/oncrpc/librpc/xdr_rec.c:523-541 | a refill loses no byte, and reads at least one unless the source has failed |
| RecordReading.RecordReader.GetInputBytes | legacy/oncrpc/librpc/xdr_rec.c:543-565 | the next bytes of the stream, however the reads are split |
| RecordReading.RecordReader.SetInputFragment | legacy/oncrpc/librpc/xdr_rec.c:567-579 | the next four bytes become the fragment's length and mark; failing inside them, it has taken some and the fragment is as before |
| RecordReading.RecordReader.SkipInputBytes | legacy/oncrpc/librpc/xdr_rec.c:581-600 | exactly that many bytes are dropped, or fewer when the source fails |
| RecordReading.RecordReader.GetBytes | legacy/oncrpc/librpc/xdr_rec.c:268-294 | the next bytes of the current record across fragments, never one of the next record, failing only when the record has too few or the source fails; the bytes `lost` are then taken and not counted, and put back they leave the record where it was |
| RecordReading.RecordReader.GetLong | legacy/oncrpc/librpc/xdr_rec.c:221-242 | the fast case and the slow case both give the word of the record's next four bytes; a failure loses what it says |
| RecordReading.RecordReader.Inline | legacy/oncrpc/librpc/xdr_rec.c:383-410 | the record's next bytes in place, or nothing changed |
| RecordReading.RecordReader.SkipRecord | legacy/oncrpc/librpc/xdr_rec.c:432-447 | the rest of the record is dropped and the next one begins, empty fragments included; when the source fails, the record still ends where it did with the bytes `lost` put back |
| RecordReading.RecordReader.Eof | legacy/oncrpc/librpc/xdr_rec.c:454-470 | the rest of the current record is dropped; after that, false exactly when bytes are left in the buffer, so long as the source does not fail |
| RecordStream.Transfer | legacy/oncrpc/librpc/xdr_rec.c:244-319 | whatever is written, batched, flushed and split is received as exactly the records written |
| RecordStream.Receive | legacy/oncrpc/librpc/xdr_rec.c:432-447 | told only the records' lengths, it returns exactly the records that the stream parses to, in order |
| ReplyLog.NewestIsNewest | legacy/oncrpc/librpc/svc_udp.c:495-529 | the entry found has the key and none stored later has it; none is found exactly when none has it |
| ReplyLog.RunKeepsLast | legacy/oncrpc/librpc/svc_udp.c:430-488 | after every run the log is the last N of all replies ever stored |
| ReplyLog.HitIsNewestOfLast | legacy/oncrpc/librpc/svc_udp.c:495-529 | after every run a hit is the newest of the last N with the xid and the saved call, and a miss means there is none |
| ReplyLog.ResentReplyCarriesXid | legacy/oncrpc/librpc/svc_udp.c:205-272 | a reply sent again carries the xid of the request it answers |
| ReplyLog.RetransmissionHits | legacy/oncrpc/librpc/svc_udp.c:205-272 | a request that missed and was answered is answered from the cache when it comes again |
| ReplyLog.SavedCallDecides | legacy/oncrpc/librpc/svc_udp.c:508-528 | in a given state, searching for the saved call finds what searching for the request's own would exactly when the calls are equal or nothing is cached for either under the id |
| ReplyLog.WhenSearchErrs | legacy/oncrpc/librpc/svc_udp.c:495-529 | after every run: a request is answered with another call's reply exactly when the saved call differs and one of the last N is filed under it; its own reply is overlooked exactly when none is |
| ReplyLog.WhenFiledRightly | legacy/oncrpc/librpc/svc_udp.c:477-482 | in every state the reply to a request is filed under that request exactly when the request was not answered wrongly |
| ReplyLog.MixedUpReply | legacy/oncrpc/librpc/svc_udp.c:508-528 | a run in which a request is answered with the reply to a different call |
| ReplyCache.ChainSearch | legacy/oncrpc/librpc/svc_udp.c:508-516 | searching the one chain of the key's xid is searching all entries newest first |
| ReplyCache.OldestIsTail | legacy/oncrpc/librpc/svc_udp.c:445-457 | the oldest entry is the last of its chain and in no other |
| ReplyCache.FifoVictim | legacy/oncrpc/librpc/svc_udp.c:445-452 | the next position holds the oldest entry's node, or nothing until the cache is full |
| ReplyCache.FifoStep | legacy/oncrpc/librpc/svc_udp.c:486-487 | putting a node there and counting on, with wrap-around, keeps the FIFO in order of age |
| ReplyCache.BufferCount | legacy/oncrpc/librpc/svc_udp.c:430-488 | the cached buffers and the live one are that many different buffers plus one |
| ReplyCache.UdpTransport.constructor | legacy/oncrpc/librpc/svc_udp.c:391-423 | an empty cache with its invariant |
| ReplyCache.UdpTransport.FindLink | legacy/oncrpc/librpc/svc_udp.c:445-452 | the loop over the chain finds the victim and the node before it; it never runs off the end |
| ReplyCache.UdpTransport.Unlink | legacy/oncrpc/librpc/svc_udp.c:445-457 | the victim leaves its chain and every other chain is as it was |
| ReplyCache.UdpTransport.Link | legacy/oncrpc/librpc/svc_udp.c:483-486 | the new node heads its chain and every other chain is as it was |
| ReplyCache.UdpTransport.MakeRoom | legacy/oncrpc/librpc/svc_udp.c:440-470 | a node and a buffer that no kept entry uses, the oldest entry's once the cache is full |
| ReplyCache.UdpTransport.CacheSet | legacy/oncrpc/librpc/svc_udp.c:430-488 | the abstract store, with the invariant kept, the "victim not found" branch never taken, and the displaced entry's buffer as the live one |
| ReplyCache.UdpTransport.CacheGet | legacy/oncrpc/librpc/svc_udp.c:495-529 | the abstract lookup: hit or miss, and the call saved at a miss |
| ReplyCache.UdpTransport.Recv | legacy/oncrpc/librpc/svc_udp.c:205-245 | the buffer takes the datagram over what it held; short ones fail, an error of `recvfrom` does not, and what the buffer then decodes to as a call header is looked up, sent again on a hit, with TRUE either way; a header that is refused costs the stream the length of the read that failed |
| ReplyCache.UdpTransport.SendReply | legacy/oncrpc/librpc/svc_udp.c:247-272 | a reply all of whose pieces fit and that is sent goes into the cache under the current xid; the first piece that does not fit leaves the cache alone and costs the stream its length; a new buffer restores it |
| ReplyCache.FitsAsAWhole | legacy/oncrpc/librpc/svc_udp.c:247-272 | writing a reply piece by piece succeeds exactly when the whole of it fits |
| UdpServer.WholeHeader | legacy/oncrpc/librpc/svc_udp.c:216-232 | a datagram with a whole header is heard as that header, whatever the buffer held |
| UdpServer.HeardFromLeftovers | legacy/oncrpc/librpc/svc_udp.c:226-232 | the first sixteen bytes of a call are heard as the previous call in the buffer under the new id |
| UdpServer.HeardAfterError | legacy/oncrpc/librpc/svc_udp.c:218-232 | after an error of `recvfrom` a call left in the buffer is heard again |
| Leftovers.OutcomeIs | legacy/oncrpc/librpc/rpc_call.c:110-200 | reading a header field by field is reading it by position: the verifier begins where the padded credentials end |
| Leftovers.TwoFillsDecide | legacy/oncrpc/librpc/rpc_call.c:110-200 | if the front of a header comes to the same filled up with zeros and with 255s, it does so filled up with anything |
| Leftovers.NothingDecides | legacy/oncrpc/librpc/rpc_call.c:185-200 | without a datagram the outcome is fixed below eight bytes, and from there on two buffers differ |
| UdpServer.ReceiveDetermined | legacy/oncrpc/librpc/svc_udp.c:216-232 | a receive comes to the same over every buffer exactly when the datagram is below sixteen bytes, or fills the room, or comes to the same filled up with zeros and with 255s; an error of `recvfrom`, exactly when there is room for less than two words |
| UdpServer.RunDetermined | legacy/oncrpc/librpc/svc_udp.c:205-245 | what a run has come to, requests heard and room lost, is all it could have come to whatever the buffer held, exactly when every receive passes that test |
| UdpServer.Deaf | legacy/oncrpc/librpc/svc_udp.c:227-231 | without room nothing is heard, and each request and each reply costs four more |
| UdpServer.Serve | legacy/oncrpc/librpc/svc_udp.c:205-272 | over every run of happenings, good and bad, each result is what the datagram and the buffer of that moment decode to with the room that is left, and what is sent again is exactly what the log says |
| Xdr.ScalarRoundTrip | legacy/oncrpc/librpc/xdr.c:104-330 | each scalar filter gets back the value it put |
| Xdr.WireWordIsValue | legacy/oncrpc/librpc/xdr.c:264-280 | the word on the wire is the value modulo 2^32 except for exactly the unsigned chars with the top bit set |
| Xdr.SelectSucceeds | legacy/oncrpc/librpc/xdr.c:471-510 | a union accepts a discriminant exactly when it has a case for it or a default |
| Xdr.RoundTrip | legacy/oncrpc/librpc/xdr.c:339-581 | for every composition of filters, decoding an encoding before any bytes gives the value and stops at its end |
| Xdr.WholeUnits | legacy/oncrpc/librpc/xdr.c:339-381 | every encoding is a whole number of four-byte units |
| Xdr.EncodeThenDecode | legacy/oncrpc/librpc/xdr_arra.c:69-167 | both laws together, through arrays, vectors and pointers |
| Xdr.DecodedIsTyped | legacy/oncrpc/librpc/xdr.c:339-581 | whatever bytes are decoded, the result is an object of the type exactly when no string without a limit has met the count 2^32-1, and can then be encoded |
| Xdr.NullString | legacy/oncrpc/librpc/xdr.c:548-561 | the count 2^32-1 for a string without a limit is accepted, with nothing behind it read, and gives a null pointer |
| Xdr.LimitedMeetsNone | legacy/oncrpc/librpc/xdr.c:518-581 | where every string has a limit below 2^32-1 that cannot happen |
| Xdr.Canonical | legacy/oncrpc/librpc/xdr.c:339-581 | what has been decoded can be encoded exactly when no string has come out null; encoding it and decoding again then changes nothing |
| XdrMem.MemStream.GetLong | legacy/oncrpc/librpc/xdr_mem.c:110-121 | whatever failed before, it succeeds exactly when four bytes are left or the count wraps; the count goes down by four in 32 bits, and the word is the one at the position if the buffer reaches that far |
| XdrMem.MemStream.PutLong | legacy/oncrpc/librpc/xdr_mem.c:123-134 | it succeeds exactly when four bytes are left or the count wraps; the word is stored at the position as far as the buffer reaches, and nothing else in it changes |
| XdrMem.MemStream.GetBytes | legacy/oncrpc/librpc/xdr_mem.c:136-148 | for every length of 32 bits: it succeeds exactly when so many are left or the length is more than 2^31 above the count; the count goes down by it in 32 bits, and the bytes are those at the position if the buffer reaches that far |
| XdrMem.MemStream.PutBytes | legacy/oncrpc/librpc/xdr_mem.c:150-162 | it succeeds exactly when they fit or the count wraps; the bytes are stored at the position as far as the buffer reaches, and nothing else in it changes |
| XdrMem.MemStream.SetPos | legacy/oncrpc/librpc/xdr_mem.c:172-185 | in any state it succeeds exactly up to the end of the buffer as the counts have it, which stays fixed, and then the stream is whole again |
| XdrMem.MemStream.Inline | legacy/oncrpc/librpc/xdr_mem.c:187-200 | a view of the next bytes, stepped over, exactly when so many are left, and nothing changed otherwise |
| Exhaustion.EndAfter | legacy/oncrpc/librpc/xdr_mem.c:110-200 | over every run of operations the end of the buffer moves down by exactly the lengths of the reads and writes that failed, and up by 2^32 for each time the count has wrapped |
| Exhaustion.Rewinds | legacy/oncrpc/librpc/svc_udp.c:227 | after any run without a wrap, moving back to the start succeeds exactly when those lengths add up to no more than the buffer, which is then smaller by that much |
| Exhaustion.DeadUntilWrap | legacy/oncrpc/librpc/xdr_mem.c:110-200 | once it fails, and until a count wraps, an operation on the stream succeeds exactly when it is a read or write that takes the count through the bottom |
| Exhaustion.Revives | legacy/oncrpc/librpc/svc_udp.c:226-229 | a dead stream gives a server a word again exactly after as many requests as there are fours between its count and -2^31, and then believes itself to have 2^31 bytes left |
| Exhaustion.OneReadIsEnough | legacy/oncrpc/librpc/svc_udp.c:274-282 | one read kills the stream exactly when it asks for more than the buffer holds, and for no more than 2^31 above that |
| Exhaustion.Operate | legacy/oncrpc/librpc/xdr_mem.c:110-200 | a stream put through any operations that stay in its buffer succeeds and fails, and ends up, as the cursor of the lemmas above does |
| XdrMem.EncodeOpaque | legacy/oncrpc/librpc/xdr.c:340-381 | the bytes and zeros up to a whole unit |
| XdrMem.EncodeCounted | legacy/oncrpc/librpc/xdr.c:392-445 | length and bytes, refused above the limit |
| XdrMem.EncodeLoop | legacy/oncrpc/librpc/xdr_arra.c:148-167 | the loop over the elements writes their encodings one after the other |
| XdrMem.EncodeArray | legacy/oncrpc/librpc/xdr_arra.c:69-137 | count, limit and elements as the array filter prescribes |
| XdrMem.EncodePointer | legacy/oncrpc/librpc/xdr_refe.c:128-147 | whether there is an object, then the object |
| XdrMem.EncodeUnion | legacy/oncrpc/librpc/xdr.c:471-510 | the loop over the choices runs the first that matches, else the default, else fails |
| XdrMem.EncodeItem | legacy/oncrpc/librpc/xdr.c:104-581 | every procedure writes its filter's encoding exactly when there is one and it fits |
| XdrMem.DecodeOpaqueItem | legacy/oncrpc/librpc/xdr.c:340-381 | the bytes, with their padding dropped |
| XdrMem.DecodeStringItem | legacy/oncrpc/librpc/xdr.c:518-581 | `xdr_string`: one byte more than the count is allocated, unless that wraps to nothing; the result is the C string up to its first NUL |
| XdrMem.DecodeLoop | legacy/oncrpc/librpc/xdr_arra.c:148-167 | the loop reads that many elements one after the other |
| XdrMem.DecodeArray | legacy/oncrpc/librpc/xdr_arra.c:69-137 | count, limit and elements as the array filter prescribes |
| XdrMem.DecodePointer | legacy/oncrpc/librpc/xdr_refe.c:69-147 | a null pointer, or a freshly decoded object |
| XdrMem.DecodeUnion | legacy/oncrpc/librpc/xdr.c:471-510 | the discriminant and the arm it selects |
| XdrMem.DecodeItem | legacy/oncrpc/librpc/xdr.c:104-581 | every procedure yields what its filter decodes and leaves the stream there |
| CallMsg.ParseMsgBytes | legacy/oncrpc/librpc/rpc_call.c:59-200 | the bytes of a call message parse back to it whatever the padding bytes are |
| CallMsg.DecodeInline | legacy/oncrpc/librpc/rpc_call.c:110-184 | the unrolled decoder gives the message that the stream's bytes mean, and a failure costs what `HeaderCost` says |
| CallMsg.DecodeGeneric | legacy/oncrpc/librpc/rpc_call.c:185-200 | the generic path gives the same and costs the same |
| CallMsg.DecodeCallMsg | legacy/oncrpc/librpc/rpc_call.c:59-200 | one message, one final position and one cost of failing for every pattern of granted and refused `XDR_INLINE` |
| CallMsg.DecodeAuth | legacy/oncrpc/librpc/rpc_prot.c:74-85 | flavour, length at most 400 and body, a filter call at a time, are what the bytes mean |
| CallMsg.DecodeBody | legacy/oncrpc/librpc/rpc_call.c:126-151 | the body of an authenticator, in line or through the filter, at most 400 bytes and its padding |
| CallMsg.ParseMore | legacy/oncrpc/librpc/rpc_call.c:59-200 | a whole header means the same whatever lies behind it |
| CallMsg.HeaderFits | legacy/oncrpc/librpc/rpc_call.c:59-200 | with 840 bytes to read no header is refused for want of more |
| CallMsg.EncodeInline | legacy/oncrpc/librpc/rpc_call.c:67-109 | the unrolled encoder writes the message's bytes except that padding keeps what was there |
| CallMsg.EncodeGeneric | legacy/oncrpc/librpc/rpc_call.c:185-200 | the generic path writes them with zero padding |
| CallMsg.EncodeCallMsg | legacy/oncrpc/librpc/rpc_call.c:59-200 | success exactly for sendable messages, and the same bytes by either path up to padding |
| CallMsg.CallRoundTrip | legacy/oncrpc/librpc/rpc_call.c:59-200 | what any encoding path writes any decoding path reads back, with the bytes behind it left |
| ReplyMsg.EncodeAccepted | legacy/oncrpc/librpc/rpc_prot.c:102-123 | the hand-written switch writes what the declared open-ended union prescribes |
| ReplyMsg.EncodeRejected | legacy/oncrpc/librpc/rpc_prot.c:129-149 | the hand-written switch writes what the declared union prescribes and refuses other statuses |
| ReplyMsg.EncodeReplyMsg | legacy/oncrpc/librpc/rpc_prot.c:159-172 | the procedure encodes the declared message and nothing that is not a reply |
| ReplyMsg.DecodeAccepted | legacy/oncrpc/librpc/rpc_prot.c:102-123 | the hand-written switch decodes the declared open-ended union |
| ReplyMsg.DecodeRejected | legacy/oncrpc/librpc/rpc_prot.c:129-149 | the hand-written switch decodes the declared union |
| ReplyMsg.DecodeReplyMsg | legacy/oncrpc/librpc/rpc_prot.c:159-172 | the procedure decodes the declared message |
| ReplyMsg.ReplyRoundTrip | legacy/oncrpc/librpc/rpc_prot.c:74-172 | a reply that encodes is accepted or denied, and decodes to itself before any bytes |
| UnixCred.FilterMeaning | legacy/oncrpc/librpc/authunix.c:68-83 | the chain of filter calls decodes a credential exactly when `Meaning` gives one, with the same fields |
| UnixCred.SvcAuthUnix | legacy/oncrpc/librpc/svc_autu.c:84-131 | the unrolled decoder, looking at no more than 340 bytes, gives the credential's `Meaning` except exactly when the count of groups is negative and the computed length wraps below the credential's; then it accepts, with no groups and that count |
| UnixCred.WrapsOnce | legacy/oncrpc/librpc/svc_autu.c:99-115 | a credential of 20 bytes with a count of -1 is such a case |
| PortTable.ExactFinds | legacy/oncrpc/librpc/portmap.c:141-159 | the loop's hit is the entry with the key, and there is none exactly when it misses |
| PortTable.AnyVersionFinds | legacy/oncrpc/librpc/portmap.c:141-159 | the fallback is the last entry of the program and protocol |
| PortTable.KeepMeaning | legacy/oncrpc/librpc/portmap.c:228-260 | removal keeps exactly the entries of other programs and versions, in order |
| PortTable.RunUnique | legacy/oncrpc/librpc/portmap.c:186-260 | after every run of SET and UNSET no key occurs twice |
| PortTable.SetOnMap | legacy/oncrpc/librpc/portmap.c:186-226 | SET answers yes exactly when the key was absent or bound to that port, and binds it if absent |
| PortTable.UnsetOnMap | legacy/oncrpc/librpc/portmap.c:228-260 | UNSET removes every protocol of the program and version and answers whether there was any |
| PortTable.GetPortMeaning | legacy/oncrpc/librpc/portmap.c:262-280 | after every run: the key's binding, else the one whose SET came earliest, else zero |
| PortMapper.Registry.FindService | legacy/oncrpc/librpc/portmap.c:141-159 | the walk over the list finds what the table's search finds |
| PortMapper.Registry.Set | legacy/oncrpc/librpc/portmap.c:186-226 | the list changes as the table does under SET |
| PortMapper.Registry.Unset | legacy/oncrpc/librpc/portmap.c:228-260 | removal while walking changes the list as the table does under UNSET |
| PortMapper.Registry.GetPort | legacy/oncrpc/librpc/portmap.c:262-280 | the port the table gives |
| PortMapper.Replay | legacy/oncrpc/librpc/portmap.c:164-280 | over any run the registry answers as the table does |
| RmtCall.EncodeRmtCallArgs | legacy/oncrpc/librpc/pmap_rmt.c:130-155 | placeholder, arguments, rewind and patch leave head, true length and arguments, whatever length was there before |
| RmtCall.PatchedLengthDecodes | legacy/oncrpc/librpc/portmap.c:325-355 | the portmapper decodes that as the same call with exactly the argument bytes, up to its limit and no further |
| RmtCall.FindLength | legacy/oncrpc/librpc/portmap.c:384-405 | the bisection on positions ends at the bytes that remain, or the limit, with the position restored |
| RmtCall.DecodeLenOpaque | legacy/oncrpc/librpc/portmap.c:371-405 | that many bytes are then read, exactly when they are the limit or a whole number of units |
| PmapList.RecursiveEncoding | legacy/oncrpc/librpc/xdr_refe.c:69-106 | the recursive procedure encodes a list as a flag before each element and one at the end |
| PmapList.EncodePmapList | legacy/oncrpc/librpc/pmap_pro.c:98-130 | the loop writes the same bytes |
| PmapList.DecodePmapList | legacy/oncrpc/librpc/pmap_pro.c:98-130 | the loop links up, in order, the list that the recursive decoding gives |
| PmapList.ListRoundTrip | legacy/oncrpc/librpc/pmap_pro.c:98-130 | a list that is read back is the list that was written, before any bytes |
| PmapList.Dump | legacy/oncrpc/librpc/portmap.c:282-295 | after any run of SET and UNSET the reply to DUMP is the encoding of the table |
| PmapList.DumpAndList | legacy/oncrpc/librpc/pmap_gma.c:78-106 | the list a client decodes from it holds exactly the registrations in force, in their order |
| UdpXid.CounterAfter | legacy/oncrpc/librpc/clnt_udp.c:283-290 | after n attempts the two counted bytes hold the start plus n modulo 65536 |
| UdpXid.SameXid | legacy/oncrpc/librpc/clnt_udp.c:283-290 | two attempts carry the same id exactly when 65536 divides their distance |
| UdpWorld.RunIsHonest | legacy/oncrpc/librpc/svc_udp.c:205-272 | in every run, cached resends included, each packet bears its attempt's id and every reply, sent or cached, that of the attempt it was made for |
| UdpWorld.RepliesAreMade | legacy/oncrpc/librpc/svc_udp.c:247-272 | in every run a reply said to be made for an attempt was made by the server when it had received that attempt |
| UdpWorld.AcceptedReply | legacy/oncrpc/librpc/clnt_udp.c:389-396 | in every run an accepted reply answers, and was made for, the current attempt exactly when the attempt it answers, or was made for, is less than 65536 attempts back |
| UdpWorld.ResentReply | legacy/oncrpc/librpc/svc_udp.c:233-242 | in every run what the cache sends again was made for the request's own attempt exactly when the newest reply under its key was made for this handle less than 65536 attempts away |
| UdpWorld.AcceptedReplyIsCurrent | legacy/oncrpc/librpc/clnt_udp.c:389-396 | when no datagram is delayed by 65536 attempts and no reply sent again is that old or another caller's, an accepted reply was made for the current attempt |
| UdpWorld.StaleReplyAccepted | legacy/oncrpc/librpc/clnt_udp.c:389-396 | the first bound is sharp: a reply delayed by a multiple of 65536 attempts is accepted |
| UdpWorld.StaleResendAccepted | legacy/oncrpc/librpc/svc_udp.c:233-242 | the second is too: with the cache a reply made that long ago is accepted though nothing was delayed |
| UdpClient.IntervalsBelow | legacy/oncrpc/librpc/clnt_udp.c:340-351 | intervals that fall short of the timeout are fewer than the timeout's intervals rounded up |
| UdpClient.Await | legacy/oncrpc/librpc/clnt_udp.c:331-397 | waiting ends at the first timeout, error or datagram with the right id, passing over all else |
| UdpClient.Handle.AddWait | legacy/oncrpc/librpc/clnt_udp.c:340-346 | the carry loop adds exactly one interval and leaves a normalised time |
| UdpClient.Handle.SendAndWait | legacy/oncrpc/librpc/clnt_udp.c:299-397 | one datagram at the start and one for each interval that falls short, with the time waited equal to the intervals counted |
| UdpClient.Handle.Call | legacy/oncrpc/librpc/clnt_udp.c:245-430 | at most three attempts; at most the timeout's intervals, at least one, plus two datagrams, one when the timeout is zero; no such bound, and no timing out, with a retry interval of zero; a deciding reply bears the last id sent |
| TcpXid.SameXid | legacy/oncrpc/librpc/clnt_tcp.c:301-304 | counting the word down gives two attempts the same id exactly when 2^32 divides their distance |
| TcpXid.RunIsHonest | legacy/oncrpc/librpc/svc_tcp.c:435-491 | in every run the server holds the id of the request it may reply to, replies bear their attempts' ids in the attempts' order, and each attempt accepts at most one; two that are accepted were made for different attempts, rising, unless the second was accepted 2^32 attempts or more after the one that the first was made for |
| TcpXid.TakenReply | legacy/oncrpc/librpc/clnt_tcp.c:330-344 | a record is accepted exactly when it is a reply, its results cut off or not, to an attempt a multiple of 2^32 back, so stale replies are discarded |
| TcpXid.CurrentReplyReached | legacy/oncrpc/librpc/clnt_tcp.c:330-344 | reading on discards all that stands before the first reply to the current attempt and accepts that |
| TcpXid.CutOffReplyAccepted | legacy/oncrpc/librpc/svc_tcp.c:480-491 | when results do not encode, the client accepts the reply that was cut off, and the error reported behind it, under the same id, stays in the stream |
| TcpClient.Await | legacy/oncrpc/librpc/clnt_tcp.c:330-344 | reading ends at the first read error or reply with the right id, skipping malformed records and other replies |
| TcpClient.Handle.Attempt | legacy/oncrpc/librpc/clnt_tcp.c:301-344 | one request under the next id, only batched without results and time, sent but not waited for without time |
| TcpClient.Handle.Call | legacy/oncrpc/librpc/clnt_tcp.c:275-370 | at most three requests, ids all different; a deciding reply bears the last one's, which is in full on the connection |
| RpcComplete.DefineSound | legacy/oncrpc/rpcgen/rpc_pars.c:76-450 | what is accepted is the spelling of that definition and no token more |
| RpcComplete.DefineComplete | legacy/oncrpc/rpcgen/rpc_pars.c:76-450 | every spelling is accepted as its definition, with whatever stands behind it left alone |
| RpcComplete.Unambiguous | legacy/oncrpc/rpcgen/rpc_pars.c:76-450 | no tokens begin with the spellings of two definitions |
| RpcComplete.FileSound | legacy/oncrpc/rpcgen/rpc_main.c:299-301 | an input that is accepted is the spelling of its definitions |
| RpcComplete.FileComplete | legacy/oncrpc/rpcgen/rpc_main.c:299-301 | every list of spellings is accepted as those definitions |
| RpcParser.Scanner.GetToken | legacy/oncrpc/rpcgen/rpc_scan.c:173-187 | the next token, a pushed-back one first, and the rest stays in order |
| RpcParser.Scanner.Peek | legacy/oncrpc/rpcgen/rpc_scan.c:143-149 | the next token, with no token lost, duplicated or moved |
| RpcParser.Scanner.PeekScan | legacy/oncrpc/rpcgen/rpc_scan.c:155-167 | the token is taken exactly when it is the expected one |
| RpcParser.Scanner.Scan | legacy/oncrpc/rpcgen/rpc_scan.c:79-88 | success exactly on the expected token |
| RpcParser.UnsignedDec | legacy/oncrpc/rpcgen/rpc_pars.c:420-450 | the unsigned types, with `int` optional after the shorter ones |
| RpcParser.GetType | legacy/oncrpc/rpcgen/rpc_pars.c:367-417 | the type that the grammar finds, voids only in unions and programs |
| RpcParser.GetDeclaration | legacy/oncrpc/rpcgen/rpc_pars.c:316-364 | the declaration that the grammar finds, with arrays of pointers and misused opaques and strings refused |
| RpcParser.GetMembers | legacy/oncrpc/rpcgen/rpc_pars.c:123-147 | the loop gathers the members in order |
| RpcParser.GetCases | legacy/oncrpc/rpcgen/rpc_pars.c:255-285 | the loop gathers the cases in order and stops before a default or the brace |
| RpcParser.GetVals | legacy/oncrpc/rpcgen/rpc_pars.c:211-237 | the loop gathers the values of an enumeration |
| RpcParser.GetProcs | legacy/oncrpc/rpcgen/rpc_pars.c:150-208 | the inner loop gathers a version's procedures |
| RpcParser.GetVersions | legacy/oncrpc/rpcgen/rpc_pars.c:150-208 | the outer loop gathers a program's versions |
| RpcParser.GetDefinition | legacy/oncrpc/rpcgen/rpc_pars.c:76-113 | the tree of the definition the grammar finds, the end of input, or an error exactly when there is none |
| RpcParser.ReadFile | legacy/oncrpc/rpcgen/rpc_main.c:299-301 | the trees of all definitions of the input in order |
| RpcTypes.ParsedIsSane | legacy/oncrpc/rpcgen/rpc_pars.c:316-364 | what the parser lets through meets the demands that the emitter's theorems make on declarations |
| RpcEmit.IsVectorDef | legacy/oncrpc/rpcgen/rpc_util.c:218-242 | where typedefs refer to earlier ones, the loop over what has been defined so far ends and decides whether the type was declared as an array |
| RpcEmit.CompiledIsOrdered | legacy/oncrpc/rpcgen/rpc_util.c:218-242 | that is so at every type of a file that the C compiler would take, constants and programs aside |
| RpcEmit.TurnsOnItself | legacy/oncrpc/rpcgen/rpc_util.c:218-242 | it is not for a typedef of a name to itself, from which the search comes back to where it was |
| RpcEmit.EmitStruct | legacy/oncrpc/rpcgen/rpc_cout.c:332-341 | the loop writes one statement for each member in order |
| RpcEmit.EmitUnion | legacy/oncrpc/rpcgen/rpc_cout.c:286-327 | the discriminant's statement, then a switch with every case; a void default writes no label, a missing one refuses |
| RpcEmit.Emit | legacy/oncrpc/rpcgen/rpc_cout.c:74-97 | the routine for a definition |
| RpcEncodes.VectorDefIsArray | legacy/oncrpc/rpcgen/rpc_cout.c:362-378 | the address operator is left out only before members of array type |
| RpcEncodes.CallMeans | legacy/oncrpc/rpcgen/rpc_cout.c:199-272 | the call written for a declaration encodes what the declaration prescribes |
| RpcEncodes.SwitchMeans | legacy/oncrpc/rpcgen/rpc_cout.c:286-327 | the switch encodes the arm that the declared union selects, from the member in use |
| RpcEncodes.UnionAccepts | legacy/oncrpc/rpcgen/rpc_cout.c:286-327 | a union's routine succeeds exactly when the discriminant is a declared case or there is a default |
| RpcEncodes.BodyMeans | legacy/oncrpc/rpcgen/rpc_cout.c:74-97 | every routine, running those it calls, encodes what the declared type prescribes and fails exactly when that does |
| RpcDecodes.CallDecodes | legacy/oncrpc/rpcgen/rpc_cout.c:199-272 | the call written for a declaration decodes what the declaration prescribes |
| RpcDecodes.StatsDecode | legacy/oncrpc/rpcgen/rpc_cout.c:332-341 | a structure's statements set every member, each to what its declaration decodes |
| RpcDecodes.UnionDecodes | legacy/oncrpc/rpcgen/rpc_cout.c:286-327 | a union's routine decodes the declared union from any bytes |
| RpcDecodes.ObjectDecodes | legacy/oncrpc/rpcgen/rpc_cout.c:74-97 | every routine, running those it calls, decodes what the declared type prescribes from any bytes |
| RpcDecodes.NullStringDecoded | legacy/oncrpc/rpcgen/rpc_cout.c:236-244 | the routine for a string without a limit does accept that count |
| RpcDecodes.ObjectIsTyped | legacy/oncrpc/rpcgen/rpc_cout.c:74-97 | what a routine decodes is an object of the declared type exactly when no string without a limit has met the count 2^32-1 |
| RpcDecodes.RoutinesRoundTrip | legacy/oncrpc/rpcgen/rpc_cout.c:74-97 | what a routine encodes it decodes to the same object, whole units, leaving what stands behind |
| RpcFile.CompiledIsEmittable | legacy/oncrpc/rpcgen/rpc_util.c:218-242 | what the C compiler takes the emitter can be run on |
| RpcFile.RoutinesInPrefix | legacy/oncrpc/rpcgen/rpc_main.c:299-301 | what is written for a definition does not depend on later ones |
| RpcFile.Compile | legacy/oncrpc/rpcgen/rpc_main.c:279-304 | the driver's loop writes the routine of each type up to the end of the input or the first malformed definition, and succeeds exactly on files |
| RpcFile.FileMeans | legacy/oncrpc/rpcgen/rpc_main.c:279-304 | of the tokens of any file of definitions that compiles, every routine written encodes its type and decodes its encodings to the same object |

## Left out

- UnixCred.SvcAuthUnix: a name length of 2^31 or more is excluded, since the C code would then copy a negative number of bytes.
- XdrMem.MemStream.GetBytes: what lies in memory outside the buffer, which an operation whose count has wrapped reads or overwrites, is not part of this model; nor do addresses wrap in `SetPos`.
- UdpServer.Serve: runs that could cost the stream more than 2^31 in all, whose count might wrap, are left out (`Exhaustion.Revives` is about those); arguments are known only by the length of the piece that did not fit.
- XdrMem.DecodeItem: allocating 2^31 bytes or more is taken to fail, so byte counts from 2^31 on are refused, but for the count 2^32-1 of a string, which asks for none.
- XdrMem.DecodeArray: an element count of 2^31 or more is refused at once, where the C code goes on until the input runs out; a smaller count whose product with the element size wraps in 32 bits is read on into a block that is too small, which is not modelled, and neither is it in `Xdr.DecodedIsTyped` and `RpcDecodes.ObjectIsTyped`.
- PmapList.DecodePmapList: nothing is said about the partial list that a failing decode leaves behind; a node is allocated after its mapping has been decoded.
- UdpClient.Handle.Call: what `select` and `recvfrom` report is a finite list, at whose end the call is left waiting; the retry interval is constant, so platforms whose `select` changes its timeout are not covered.
- RecordStream.Transfer: the sink and the source do not fail; failing ones are covered member by member.
- Sockets, `select`, `recvfrom`, name lookup and start-up code: what they report is an input or a free choice.
- `xdrrec_getpos` and `xdrrec_setpos`, which depend on the handle's file position.
- The two halves of the record stream structure are two classes; a `writeit` that writes part of the buffer is an error, as in the C code.
- The five key fields of a cache node are one value; the cache has room for at least one reply.
- Execute-at-most-once at the UDP server: a request answered from the cache is passed on all the same.
- Errors recorded in the client handle beyond the status, and the mapping of denied replies to statuses (`rpc_prot.c:200-304`).
- On a memory stream `XDR_INLINE` is never refused for a whole credential, so the filter branch of `_svcauth_unix` (`svc_autu.c:126-131`) is not reached there.
- Allocation failure, `XDR_FREE` and the freeing of lists.
- The scanner's characters: comments, white space, directives, numbers and keywords (`rpc_scan.c:173-440`); tokens are the input, an identifier spelled like a keyword does not occur, and tail-pointer lists are sequences.
- Text of the emitted code, headers, stubs, skeletons and the driver's options; the operand of `sizeof` is taken to be the type named next to it.
- Routines written by hand for types that are not defined in the file; a floating-point object stands for its bits, as on the Intel target.
- RpcEmit.IsVectorDef: typedefs that refer to themselves or forwards, on which the loop need not end, are excluded; C does not accept them.
- `svc.c`, `bindresv.c`, `nt.c`, the dispatch tables and `legacy/oncrpc/service`, apart from the portmapper twin in `librpc`: they would add only easier members.
- `legacy/fbs_dienste` and `addonlibs`: generated tables and wrappers over libraries that are not part of the repository.
