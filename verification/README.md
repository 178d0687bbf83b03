# Verified model of the framing, byte-order, scanning and time headers

The project models four pieces of executable code of the repository in Dafny and proves what they
do for all inputs.

**Message framing** (`src/cplatform`). A connection carries frames: the size of a serialised head
as a host `int`, the head, and a body whose size the head announces. `CMsgEvent` must put messages
together from a stream that arrives in arbitrary chunks. `MsgFraming.dfy` gives `recvMsg` and
`readCb` as functions of the receiver's state and the bytes that have arrived; `MsgEvent.dfy` gives
the classes with their fields and buffers updated in place, each method proved equal to its
function; `MsgDelivery.dfy` proves when the receiver delivers exactly what was sent on one connection,
and `MsgConnections.dfy` over all connections of an object, since client objects reconnect and keep
part of their state. The receiver is not always right: the exact condition on the positions of the cuts and on
how connections end is proved, in both directions, for all streams and all chunkings (`InSyncExactly`). Serialising and parsing heads are parameters. The source files
of `src/cplatform` are encoded in GBK; lines are counted by line feeds.

**Trailing-space scanner** (`m_string.h`). Two fast scanners, one on aligned words and one on
eight bytes at a time, are proved to give the answer of the byte-by-byte loop. The string is a whole
array at an arbitrary address, so every read is proved to be in bounds and every word load aligned.
Pointer arithmetic goes through sign extension and truncation as in the source.

**Byte-order codec** (`my_byteorder.h` and the headers it includes). `ByteValue.dfy` defines the value
of a byte sequence of any length and proves it a bijection with [0, 256^n). Every reader and writer of
every width and platform refines it, C conversions and wrap-around written out in `CTypes.dfy`.
`HostMemory.dfy` describes how a machine keeps an object in memory; `FloatWireFormat.dfy` says which
hosts can exchange doubles; `StoreSequences.dfy` covers runs of stores into one buffer.

**Time values** (`event2/util.h`). The add, subtract and compare macros are proved to be addition,
subtraction and order of microseconds, in place and under any aliasing.

Where the code and its documentation differ, the model follows the code:

- `src/cplatform/cmsgevent.h:16-21` promises that an incomplete message waits for the next call. After
  a first message has been received, `pbHead_` is never reset, not even between connections, so an incomplete
  head makes the callback run with the previous head and an empty body (`StaleHeadDispatched`,
  `StaleHeadAfterReconnect`). A size that arrives in two pieces is misread (`SizeCut`). A connection that
  breaks inside a frame leaves the frame's bytes in front of the next one (`HeldBytesBreakSync`).
- `src/cplatform/cmsgevent.h:28` says that `sendMsg` returns false when no connection is set. It also
  returns false for an empty body, after the complete frame has gone out (`WrittenWhenAccepted`), and for a
  refused write, possibly after part of a frame (`WholeFrameWritten`).
- `src/cplatform/cmsg.h:6` calls 8192 the limit of the head; `alloc` applies it to bodies too, and
  the sender does not check it (`WholeStreamExactly`).
- `include/mysql5.7/my_byteorder.h:32-36` promises a machine-independent format. `float8store` copies memory
  on a machine that keeps the words of a double high word first and so writes another format there
  (`Float8IsLowByteFirst`), while `doublestore`, the machine-format function, writes low byte first.
- `include/mysql5.7/m_string.h:284` says that the last non-space character is returned; the code returns the
  position after it.

## Model

| member | source | states |
|---|---|---|
| MsgConnections.InSyncExactly | src/cplatform/cmsgevent.cpp:54-151 | For every sequence of connections of one object, every list of frames within the size limits on each and every way each stream is cut into chunks: after every chunk exactly the complete messages have been delivered and every other byte is held, if and only if no cut lies inside a size field or, once the object has ever received a head, between a size and the end of a head, and every connection followed by another ends between frames or by close |
| MsgConnections.IdleBetween | src/cplatform/ccometask.cpp:303-324 | After connections received rightly and ended cleanly the receiver is idle, and it has an old head exactly if the end of a head has ever arrived |
| MsgConnections.EndOfConnection | src/cplatform/ccometask.cpp:303-324 | What a rightly received connection leaves in the object: as many held bytes as the unfinished frame had, and the old head |
| MsgConnections.HeldBytesBreakSync | src/cplatform/ccometask.cpp:87-96 | An object that reconnects with bytes of an unfinished frame is out of sync before the first new byte |
| MsgConnections.StaleHeadAfterReconnect | src/cplatform/cmsgevent.cpp:24-32 | For any two messages on two connections of one object, ended either way between them: the second cut between the end of its size and the end of its head makes the callback run with the head of the first |
| MsgConnections.DeliveredOverall | src/cplatform/cmsgevent.h:16-21 | An object whose connections each bring their whole stream in safe chunks calls the callback for exactly the messages sent to it, in order |
| MsgDelivery.ConnectionInSyncExactly | src/cplatform/cmsgevent.cpp:54-151 | One connection that finds the receiver idle, with or without an old head: in sync at all times if and only if every cut is safe |
| MsgDelivery.Delivered | src/cplatform/cmsgevent.h:16-21 | A whole stream that arrives in safe chunks makes the callback run for exactly the sent messages, in order, and leaves the receiver idle, whatever old head it had |
| MsgDelivery.SafeRunsAreOnTrack | src/cplatform/cmsgevent.cpp:54-82 | Over a whole run of safely cut chunks the receiver equals the reference receiver, whatever old head it had |
| MsgDelivery.SizeCut | src/cplatform/cmsgevent.cpp:85-96 | The exact outcome of one to three bytes c of a size, which count as their value on a little-endian machine and as their value shifted to the high end, as a signed 32-bit number, on a big-endian one: outside [1, 8192] they are dropped, inside the receiver waits under that size or, with an old head, delivers that head |
| MsgDelivery.SizeOfBytes | src/cplatform/cmsgevent.cpp:87-88 | The number that the size variable holds after up to four bytes have been read into it, on both byte orders |
| MsgDelivery.BadSizeRejected | src/cplatform/cmsgevent.cpp:87-95 | A complete size outside [1, 8192] is taken from the input and nothing else changes, whatever follows |
| MsgDelivery.BadHeadRejected | src/cplatform/cmsgevent.cpp:107-134 | A head that the parser refuses, or that announces a negative body size or one above 8192, makes no callback when it completes, however it was cut: the receiver is cleared, keeps the parsed head and leaves what follows unread |
| MsgDelivery.BadHeadRejectedFromSize | src/cplatform/cmsgevent.cpp:84-134 | The same when such a head arrives with its size, whatever old head the receiver had |
| MsgDelivery.HeadKept | src/cplatform/cmsgevent.cpp:98-109 | A part of a head, good or bad, waits for the rest on a receiver without an old head |
| MsgDelivery.WholeStreamExactly | src/cplatform/cmsg.h:25-27 | In a stream that arrives whole the callback runs for exactly the frames before the first whose head or body exceeds 8192 bytes; the sender checks neither |
| MsgDelivery.OneFrameExactly | src/cplatform/cmsg.h:25-27 | A single frame that arrives whole is delivered if and only if head and body are each at most 8192 bytes |
| MsgDelivery.OtherByteOrderRejects | src/cplatform/cmsgevent.cpp:87-95 | The size travels in machine format: an idle receiver of the other byte order rejects the first frame of a connection at its size and leaves the rest unread |
| MsgDelivery.SafeStep | src/cplatform/cmsgevent.cpp:84-151 | From any safe position to any later safe one, one readCb call on the bytes between reaches the state and makes the deliveries of the reference receiver, across any number of frames |
| MsgDelivery.UnsafeStep | src/cplatform/cmsgevent.cpp:84-151 | From a safe position to an unsafe one, one readCb call at once delivers a wrong number of messages or holds a wrong number of bytes |
| MsgDelivery.StaleHeadDispatched | src/cplatform/cmsgevent.cpp:58-81 | The documented promise that an incomplete message waits for the next call is false: for any two messages, the second cut between the end of its size and the end of its head, the callback runs again with the first head and an empty body, and the received bytes of the second are dropped |
| MsgDelivery.FrameContinues | src/cplatform/cmsgevent.cpp:98-150 | What one readCb does with more bytes of an incomplete frame, and the one case in which it wrongly delivers |
| MsgDelivery.FrameCompletes | src/cplatform/cmsgevent.cpp:54-82 | When the rest of a frame arrives, from any point inside it, its message is delivered once and the loop goes on with the bytes after it |
| MsgDelivery.RecvReaches | src/cplatform/cmsgevent.cpp:84-151 | One recvMsg call, from any point of a frame, takes all of the frame's bytes that have arrived and none of the next frame's |
| MsgDelivery.ExpectedInSync | src/cplatform/cmsgevent.cpp:54-151 | The reference receiver loses and invents nothing: delivered frames, held bytes and position always add up to the received stream |
| MsgEvent.CMsgEvent.RecvMsg | src/cplatform/cmsgevent.cpp:84-151 | The in-place recvMsg on buffers has the result, state, parsed head and unread input of the function in MsgFraming.dfy |
| MsgEvent.CMsgEvent.RecvHead | src/cplatform/cmsgevent.cpp:98-150 | Steps 2 and 3 of recvMsg, with the parse of the head and the size checks of the body |
| MsgEvent.CMsgEvent.RecvBody | src/cplatform/cmsgevent.cpp:139-150 | Step 3 of recvMsg: the body grows by what has arrived |
| MsgEvent.CMsgEvent.ReadSize | src/cplatform/cmsgevent.cpp:87-88 | Reading the size into a zero variable, also from fewer than four bytes |
| MsgEvent.CMsgEvent.ReadCb | src/cplatform/cmsgevent.cpp:54-82 | The in-place loop terminates and makes exactly the deliveries of the function in MsgFraming.dfy |
| MsgEvent.CMsgEvent.ReadMsg | src/cplatform/ccometask.cpp:98-105 | Nothing without a connection; otherwise as many bytes as there are, up to the number asked for, and only those places are written |
| MsgEvent.CMsgEvent.constructor | src/cplatform/cmsgevent.h:44-47 | A new object is at the beginning of its first connection, in the terms of the theorems |
| MsgEvent.CMsgEvent.Receive | src/cplatform/cmsgevent.cpp:54-82 | After any chunks on any connection of its life the object is in the state the theorems speak of |
| MsgEvent.CMsgEvent.CloseBev | src/cplatform/ccometask.cpp:303-316 | A connection that ends by an event takes its unread input with it and leaves the rest of the receiver as it is; the object's life goes on as the theorems say |
| MsgEvent.CMsgEvent.Close | src/cplatform/cmsgevent.cpp:24-32 | A connection ended by close also drops the message being received, but keeps the parsed head |
| MsgEvent.CMsgEvent.Connect | src/cplatform/ccometask.cpp:181-207 | Connecting again does not touch the receiver |
| MsgEvent.CMsgEvent.Callback | src/cplatform/cmsgevent.cpp:79 | The callback is given the parsed head and the bytes of the body |
| MsgEvent.CMsgEvent.Clear | src/cplatform/cmsgevent.cpp:29-32 | Clearing empties head and body but keeps the parsed head |
| MsgEvent.CMsg.Alloc | src/cplatform/cmsg.h:25-41 | Succeeds exactly for sizes 1 to 8192, with a fresh buffer; otherwise changes nothing |
| MsgEvent.CMsgEvent.WriteMsg | src/cplatform/ccometask.cpp:168-179 | True exactly with a connection, a non-empty part and an accepted write; all or nothing goes out |
| MsgEvent.CMsgEvent.SendMsg | src/cplatform/cmsgevent.cpp:153-180 | For every pattern of accepted and refused writes, exactly what goes out and the result |
| MsgEvent.WrittenWhenAccepted | src/cplatform/cmsgevent.cpp:153-180 | With every write accepted: an empty body makes the result false although the whole frame has gone out, against the documented meaning of false; an empty head leaves a lone size of zero |
| MsgEvent.WhatGoesOut | src/cplatform/cmsgevent.cpp:153-180 | For every pattern of refused writes: what goes out is the beginning of the frame up to the first empty or refused part, and the result is true if and only if there is none |
| MsgEvent.WholeFrameWritten | src/cplatform/cmsgevent.cpp:153-180 | The whole frame has gone out if and only if size and head were accepted and the body was accepted or empty; otherwise a part of a frame is left in the stream |
| MsgEvent.SentStream | src/cplatform/cmsgevent.cpp:153-180 | Several sends produce the stream of their frames, the input of the delivery theorems |
| SkipTrailingSpace.SkipAligned | include/mysql5.7/m_string.h:287-317 | For every string, address, pointer size, word size and byte order the result is the position that the byte-by-byte loop gives; the steps of the three loops account for exactly the dropped bytes, head and tail steps are fewer than a word's bytes when len > 20 |
| SkipTrailingSpace.SkipByEights | include/mysql5.7/m_string.h:324-336 | For every string the result is the position that the byte-by-byte loop gives, with at most len/8 word steps and at most 7 tail steps |
| SkipTrailingSpace.SkipTrailing | include/mysql5.7/m_string.h:286-337 | Whichever scanner the build selects, and wherever the string lies, the result is the one position with only spaces behind it and no space just before it |
| SkipTrailingSpace.TrimmedLengthUnique | include/mysql5.7/m_string.h:314-316 | The position that the plain loop finds is characterised, in both directions, without a loop |
| SkipTrailingSpace.SpaceWord | include/mysql5.7/m_string.h:289-296 | A word equals SPACE_INT if and only if all its bytes are spaces, for both word sizes and both byte orders |
| SkipTrailingSpace.EightStep | include/mysql5.7/m_string.h:329 | The eight-byte comparison through uint8korr holds if and only if the trimmed part starts at or before the eight bytes |
| SkipTrailingSpace.WordStep | include/mysql5.7/m_string.h:311 | The aligned word comparison holds if and only if the trimmed part starts at or before the word |
| SkipTrailingSpace.SkipWords | include/mysql5.7/m_string.h:310-313 | Every word load is aligned and inside the string, and the loop stops within a word of the answer |
| SkipTrailingSpace.SkipBytes | include/mysql5.7/m_string.h:314-315 | The final loop reaches the answer in as many steps as there are spaces left |
| SkipTrailingSpace.Zones | include/mysql5.7/m_string.h:302-307 | The zone limits are aligned, in order, within a word of the string's ends, and the asserted condition holds |
| SkipTrailingSpace.ZonesInOrder | include/mysql5.7/m_string.h:302-310 | For len > 20 the assertion always holds and the second guard is always true, at every address |
| SkipTrailingSpace.ZonesNeedLength | include/mysql5.7/m_string.h:300-310 | The aligned zone is non-empty at every address if and only if len >= 2*sizeof(int)-1, so 20 is not tight |
| SkipTrailingSpace.RoundedPointer | include/mysql5.7/m_string.h:302-305 | The round trip through signed intptr and 64-bit arithmetic rounds addresses correctly, also when the pointer is sign-extended |
| ByteValue.ValueOfBytes | include/mysql5.7/my_byteorder.h:32-36 | The value of the low n bytes of any integer is that integer modulo 256^n, for every n |
| ByteValue.BytesOfValue | include/mysql5.7/my_byteorder.h:32-36 | Every byte sequence is the bytes of its value |
| ByteValue.ValueRangeExact | include/mysql5.7/my_byteorder.h:32-36 | n bytes represent exactly the numbers of [0, 256^n) |
| ByteValue.BytesCongruent | include/mysql5.7/my_byteorder.h:32-36 | Two integers are stored in n bytes alike if and only if they are congruent modulo 256^n |
| ByteValue.BytesSplit | include/mysql5.7/byte_order_generic.h:98-104 | Storing m + n bytes is storing the low m and then the high n, the reason int8store may call int4store twice |
| ByteOrderGeneric.Sint2Korr | include/mysql5.7/byte_order_generic.h:27-33 | Signed little-endian value of two bytes |
| ByteOrderGeneric.Sint4Korr | include/mysql5.7/byte_order_generic.h:35-43 | Signed little-endian value of four bytes |
| ByteOrderGeneric.Uint2Korr | include/mysql5.7/byte_order_generic.h:45-51 | Little-endian value of two bytes |
| ByteOrderGeneric.Uint4Korr | include/mysql5.7/byte_order_generic.h:53-61 | Little-endian value of four bytes; no partial sum wraps |
| ByteOrderGeneric.Uint8Korr | include/mysql5.7/byte_order_generic.h:63-76 | Little-endian value of eight bytes |
| ByteOrderGeneric.Sint8Korr | include/mysql5.7/byte_order_generic.h:78-81 | Signed little-endian value of eight bytes |
| ByteOrderGeneric.Int2Store | include/mysql5.7/byte_order_generic.h:83-88 | Writes the low two bytes, low byte first, and nothing else |
| ByteOrderGeneric.Int4Store | include/mysql5.7/byte_order_generic.h:90-96 | Writes the low four bytes, low byte first, and nothing else |
| ByteOrderGeneric.Int8Store | include/mysql5.7/byte_order_generic.h:98-104 | Two four-byte stores write the eight bytes, low byte first, and nothing else |
| MyByteOrder.Sint3Korr | include/mysql5.7/my_byteorder.h:43-55 | Sign extension by or-ing in 255 gives the signed value of three bytes |
| MyByteOrder.Uint3Korr | include/mysql5.7/my_byteorder.h:57-64 | Little-endian value of three bytes |
| MyByteOrder.Uint5Korr | include/mysql5.7/my_byteorder.h:66-75 | Little-endian value of five bytes |
| MyByteOrder.Uint6Korr | include/mysql5.7/my_byteorder.h:77-87 | Little-endian value of six bytes |
| MyByteOrder.Int3Store | include/mysql5.7/my_byteorder.h:89-94 | Writes the low three bytes and nothing else |
| MyByteOrder.Int5Store | include/mysql5.7/my_byteorder.h:96-103 | Writes the low five bytes and nothing else |
| MyByteOrder.Int6Store | include/mysql5.7/my_byteorder.h:105-113 | Writes the low six bytes and nothing else |
| MyByteOrder.IntStore | include/mysql5.7/my_byteorder.h:89-113 | The writer of any width, after the implicit conversion to its parameter type, stores the low bytes of the argument |
| MyByteOrder.ReadAfterStore | include/mysql5.7/my_byteorder.h:57-113 | For every width, reading what was stored gives the argument modulo 256^k |
| MyByteOrder.SignedReadAfterStore | include/mysql5.7/my_byteorder.h:43-55 | For every width with a signed reader it returns the one number of the signed range congruent to what was stored |
| MyByteOrder.StoreAfterRead | include/mysql5.7/my_byteorder.h:43-113 | For every width, storing what was read, signed or unsigned, gives back the bytes |
| StoreSequences.RunStores | include/mysql5.7/my_byteorder.h:89-113 | Calling the writers one after the other on one buffer leaves what StoreAll says of its old contents |
| StoreSequences.LastStoreWins | include/mysql5.7/my_byteorder.h:89-113 | After any run of stores, overlapping or not, every byte is the one that the last store to cover it wrote |
| StoreSequences.ReadUnlessOverwritten | include/mysql5.7/my_byteorder.h:57-113 | After any run of stores, a read at the place of one returns its number unless a later one overlaps it |
| StoreSequences.ByteOutsideStores | include/mysql5.7/my_byteorder.h:89-113 | After any run of stores, overlapping or not, a byte that none of them covers is unchanged |
| StoreSequences.ReadsAfterStores | include/mysql5.7/my_byteorder.h:89-113 | After any finite run of non-overlapping stores of any widths every read returns its number and all other bytes are unchanged |
| StoreSequences.StoreOrderIrrelevant | include/mysql5.7/my_byteorder.h:89-113 | Reordering or repeating non-overlapping stores gives the same buffer |
| ByteOrderX86.ReadersAgree | include/mysql5.7/byte_order_generic_x86.h:34-50 | Every direct load on a little-endian machine returns what the shift-and-add reader returns, on every byte string |
| ByteOrderX86.Int2Store | include/mysql5.7/byte_order_generic_x86.h:52-56 | The direct store leaves the bytes of the portable one |
| ByteOrderX86.Int4Store | include/mysql5.7/byte_order_generic_x86.h:58-62 | The direct store leaves the bytes of the portable one |
| ByteOrderX86.Int8Store | include/mysql5.7/byte_order_generic_x86.h:64-68 | The direct store leaves the bytes of the portable one |
| HostMemory.MachineFormatRoundTrip | include/mysql5.7/big_endian.h:64-121 | On either byte order and for every width, also the plainly copied ones, a machine-format load returns a stored number if and only if it is in the signed range of the width, and a store after a load restores the bytes |
| HostMemory.CopiedMemoryReadable | include/mysql5.7/big_endian.h:114-121 | An object copied byte by byte to another machine keeps its value if and only if the machines agree on byte order or the bytes are a palindrome |
| BigEndianHost.Float4Store | include/mysql5.7/big_endian.h:28-32 | A big-endian machine writes the pattern low byte first |
| BigEndianHost.Float4Get | include/mysql5.7/big_endian.h:34-40 | A big-endian machine reads the low-byte-first pattern |
| BigEndianHost.Float8Store | include/mysql5.7/big_endian.h:42-50 | A big-endian machine writes the pattern low byte first |
| BigEndianHost.Float8Get | include/mysql5.7/big_endian.h:52-62 | A big-endian machine reads the low-byte-first pattern |
| BigEndianHost.UshortGet | include/mysql5.7/big_endian.h:64-66 | Shift-and-add gives the machine's own view of the two bytes |
| BigEndianHost.ShortGet | include/mysql5.7/big_endian.h:67-69 | Shift-and-add gives the machine's own signed view of the two bytes |
| BigEndianHost.LongGet | include/mysql5.7/big_endian.h:70-76 | The bytes copied into a variable are its memory |
| BigEndianHost.UlongGet | include/mysql5.7/big_endian.h:77-83 | The bytes copied into a variable are its memory |
| BigEndianHost.ShortStore | include/mysql5.7/big_endian.h:84-87 | Shifting out bytes leaves the machine's own memory of the number |
| BigEndianHost.LongStore | include/mysql5.7/big_endian.h:88-92 | Arithmetic shifts of a possibly negative number leave the machine's own memory of it |
| LittleEndianHost.HighWordFirstSwaps | include/mysql5.7/little_endian.h:60-80 | A double kept high word first is its pattern's bytes with the two words exchanged, and exchanging again undoes it |
| LittleEndianHost.Float4Get | include/mysql5.7/little_endian.h:36-39 | Low-byte-first pattern |
| LittleEndianHost.Float4Store | include/mysql5.7/little_endian.h:41-44 | Writes the pattern low byte first |
| LittleEndianHost.Float8Get | include/mysql5.7/little_endian.h:46-49 | The double whose memory the bytes are, under either word order |
| LittleEndianHost.Float8Store | include/mysql5.7/little_endian.h:51-54 | The memory of the double as it lies, under either word order |
| LittleEndianHost.DoubleStore | include/mysql5.7/little_endian.h:60-85 | Under either word order the bytes written are the pattern, low byte first |
| LittleEndianHost.DoubleGet | include/mysql5.7/little_endian.h:70-85 | Under either word order the pattern is read low byte first, so it undoes DoubleStore |
| LittleEndianHost.UshortGet | include/mysql5.7/little_endian.h:89 | The machine's own view of the two bytes |
| LittleEndianHost.ShortGet | include/mysql5.7/little_endian.h:90 | The machine's own signed view of the two bytes |
| LittleEndianHost.LongGet | include/mysql5.7/little_endian.h:91 | The machine's own signed view of the four bytes |
| LittleEndianHost.UlongGet | include/mysql5.7/little_endian.h:92 | The machine's own view of the four bytes |
| LittleEndianHost.ShortStore | include/mysql5.7/little_endian.h:93 | Coincides with int2store of the converted number |
| LittleEndianHost.LongStore | include/mysql5.7/little_endian.h:94 | Coincides with int4store of the converted number |
| FloatWireFormat.DoubleAcrossHosts | include/mysql5.7/little_endian.h:46-54 | A double stored by one host and read by another arrives if and only if both or neither keep doubles high word first, or its words are equal |
| FloatWireFormat.ExchangeDouble | include/mysql5.7/little_endian.h:46-54 | The actual float8store of one host and float8get of any other: what the buffer holds, exactly when the double arrives, and what arrives otherwise |
| FloatWireFormat.ExchangeFloat | include/mysql5.7/little_endian.h:36-44 | The actual float4store of one host and float4get of any other: every float arrives, low byte first in between |
| FloatWireFormat.Float8IsLowByteFirst | include/mysql5.7/my_byteorder.h:32-36 | float8store keeps the promised low-byte-first format on every host but the mixed one, and there exactly for doubles with equal words |
| FloatWireFormat.MixedHostSwapsWords | include/mysql5.7/little_endian.h:46-54 | Otherwise the double arrives with its words exchanged |
| FloatWireFormat.Float8ReadUnique | include/mysql5.7/little_endian.h:46-54 | On each host float8get returns v exactly for the bytes float8store writes for v |
| FloatWireFormat.BigLongIsReversedSint4 | include/mysql5.7/big_endian.h:70-76 | longget of a big-endian machine is sint4korr of the four bytes reversed |
| CTypes.SignedUnique | include/mysql5.7/my_global.h:493-517 | Conversion to a signed type of n bytes gives the one number of its range congruent to the argument modulo 256^n |
| CTypes.BitOfOr | include/mysql5.7/my_byteorder.h:43-55 | A bit of x | y is set exactly if it is set in x or in y; a number is known by its bits (BitsDetermine) |
| Timeval.TimerAdd | include/event2/util.h:532-540 | Under every aliasing of the three operands the microseconds are the exact sum, and the result is normalised if and only if the microsecond fields add up to a value in [0, 2000000) |
| Timeval.TimerSub | include/event2/util.h:541-549 | Under every aliasing the microseconds are the exact difference, and the result is normalised if and only if the microsecond fields differ by a value in [-1000000, 1000000) |
| Timeval.SumIsAddition | include/event2/util.h:532-549 | On normalised values the macros compute the normalised form of the sum and difference of microseconds |
| Timeval.AddThenSub | include/event2/util.h:532-549 | Subtracting what was added restores the value, and the other way round |
| Timeval.FitsExactly | include/event2/util.h:532-549 | When the two macros are defined on normalised values: the addition unless the sum of microseconds is beyond the largest second or the seconds alone are below the smallest, the subtraction the other way round; both directions |
| Timeval.InRangeExactly | include/event2/event-config.h:329-333 | The range of a seconds field is that of the signed type of its size: the numbers that conversion to the type keeps |
| Timeval.UndoFitsExactly | include/event2/util.h:532-549 | For both field sizes: after a defined addition the undoing subtraction is defined unless a carry was made on the largest second, and after a defined subtraction the undoing addition unless a borrow was made on the smallest; both directions |
| Timeval.AddThenSubInPlace | include/event2/util.h:532-549 | Adding and subtracting in place under every aliasing of the three operands, under that exact condition: the first operand is back, or zero if the second was overwritten |
| Timeval.TimerCmpIsOrder | include/event2/util.h:559-564 | On normalised values ==, <=, <, >= and > of the macro are those of the numbers of microseconds |
| Timeval.TimerCmpTranslates | include/event2/util.h:559-564 | Adding or subtracting the same time on both sides keeps every comparison |
| Timeval.TimerCmpNeedsNormal | include/event2/util.h:559-564 | All five operators compare a time value with every normalised one as its microseconds compare, if and only if it is normalised |

## Left out

- MsgEvent.CMsgEvent.ReadCb: what a callback does to the connection (closing it, sending, clearing) is not modelled; the callback only records its arguments. The lookup of callbacks by message type (`src/cplatform/cmsgevent.cpp:41-52`) is left out.
- MsgEvent.CMsgEvent.SendMsg: the mutex around each write is not modelled; heads and bodies are shorter than 2 GB, the range of the `int` sizes.
- MsgEvent.CMsgEvent.CloseBev: an object that deletes itself when its connection ends has no further connection; timers, SSL and the connection flags are not modelled, and Connect does not model a connection attempt that fails.
- MsgEvent.CMsg.Alloc: a failing `new`, the release of the old buffer and the `type_` field, which the receiver never reads, are not modelled.
- MsgConnections.InSyncExactly: all peers have the byte order of the object (OtherByteOrderRejects covers the others). Being in sync is a statement about each moment of the run. What a receiver that has lost synchronisation makes of later bytes depends on how the parser reads misplaced bytes and is not stated.
- Protobuf serialisation and parsing of heads are function parameters; the theorems need only that each sent head parses back.
- Timeval.TimerAdd: requires that no step leaves the range of its field, since signed overflow is undefined in C; likewise TimerSub.
- The macros evutil_timerclear and evutil_timerisset, which the configuration takes from the system.
- Left shifts of a set bit into the sign position are taken as two's complement, as compilers do.
- The IEEE 754 meaning of floats: a float or double is its bit pattern. The plain copies (floatget, floatstore, longlongget, longlongstore and the big-endian doubleget and doublestore) need no row of their own; MachineFormatRoundTrip says what a copy keeps.
- The `char *` overloads of the byte-order functions, which only cast.
- The rest of the repository: the registry, configuration, log and authentication services, the MySQL wrapper and the gateway, which rest on libraries (protobuf, MySQL, OpenSSL, libevent) whose code is not part of this model.
