# Verified models of webrtc/base

Dafny models of the lock, the packet framing, the codecs, the checksum, the event logger and the
buffers of `webrtc/base`, with proofs of what they are for. Each module follows one source file:

- `CriticalSection`, `CriticalSectionCalls`: the recursive lock of the Mac build for any number of
  threads, one step for each access to a shared field, except that an increment or decrement of a
  recursion counter, which only the holder makes, reads and writes in one step. It is proved to be a
  recursive mutex that loses no wake-up, and what a call does from any reachable state is given field by
  field.
- `Framing`, `AsyncTcpSocket`: length-prefixed packets over an in-order byte stream. `Framing` has the
  operations as functions and the runs of a sender and a receiver; `AsyncTcpSocket` has the class that
  works on its buffers in place, proved to follow `Framing`.
- `BufferT`, `BufferQueue`, `CopyOnWriteBuffer`: growable storage with its copying cost, a bounded
  queue over recycled buffers, and handles that share reference-counted storage on the heap.
- `Bits`, `Words`, `ExpGolomb`, `BitBuffer`: words as numbers and as strings of bits, exponential
  Golomb codes (clauses 9.1 and 9.1.1 of ITU-T H.264), and the reader and writer at any bit offset.
- `Base64`, `Base64Loops`: the encoding (section 4 of RFC 4648), the quantum scanner with all its flags
  and the decoder, first as functions, then as the loops over buffers. In each of the
  three parse modes its bytes and success are proved to be those of a definition without a scanner,
  under every pad and termination flag.
- `Crc32`, `Crc32Residue`: the table-driven checksum against the bit-by-bit one (section 8 of RFC 1952),
  and that it is CRC-32.
- `ByteOrder`, `WireFormat`, `ByteBuffer`: integers in memory, the serialised format, and its writer and
  reader.
- `EventLogger`: producers, the logging thread and Start and Stop as a step protocol over the
  auto-reset event.

Where a property one would expect does not hold of the code, the code is modelled as it is, an input
that breaks the property is given, and the exact condition is proved:

- `AsyncTCPSocket::Send` accepts packets of up to 65538 bytes, but the length field holds 16 bits. A
  packet of 65536 bytes or more is misframed (`OversizedPacketIsMisframed`). A packet is recovered, a run
  delivers a prefix of what was sent, and at rest all of it, exactly when the packets concerned are shorter
  (`RecoveredIffFits`, `DeliveredInOrder`, `DeliveredIffFits`). The debug check on the size of the output
  buffer fails for the packets of 65537 and 65538 bytes (`Socket.AppendFrame`).
- `Base64` decoding that skips whitespace and requires padding rejects a text with whitespace after
  whole quanta, although without the whitespace it is accepted (`NewlineAfterFourLetters`). Otherwise
  whitespace makes no difference (`WhiteIsStrictWithoutSpaces`).
- `EventLogger::Start` clears the queue so that no event of an earlier session is logged. A producer
  that has passed the fast path and not yet appended is not reached, and its event is written by the later
  session (`StaleEventIsWritten`). A session writes only events of its own, in every continuation, exactly
  when no producer is in flight at its clear (`NoStaleEventsIff`).
- `CopyOnWriteBuffer::AppendData` with nothing to append gives a handle without storage a storage of
  capacity 0; in every other case the handle stays consistent (`Handle.AppendData`).
- `ReadUVarint` accepts bytes that the writer does not produce for the value it returns: a useless last
  byte (`UselessByte`), and a tenth byte whose bits are cut off (`LostBit`). The bytes are those the writer
  produces exactly when there is one, or the last carries something and a tenth is 1
  (`VarintIsCanonical`).

What the environment decides is a parameter: the results of the underlying socket's Send and Recv, the
interleaving of threads, timeouts, the host's byte order, and the bytes found in memory that
`SetSize` uncovers. The steps of threads interleave under sequential consistency. Integers are
unbounded; 16-bit, 32-bit and 64-bit truncation is written out where the source relies on it.

`dafny verify dfyconfig.toml` checks the project.

## Model

| member | source | states |
|---|---|---|
| CriticalSection.StepKeepsInv | webrtc/base/criticalsection.cc:57-159 | Every step of any thread inside Enter, TryEnter or Leave keeps the accounting of holder, queue, recursion count, owner, semaphore tokens and debug fields. |
| CriticalSection.RunKeepsInv | webrtc/base/criticalsection.cc:57-159 | That accounting holds in every state of every run of any number of threads. |
| CriticalSection.MutualExclusion | webrtc/base/criticalsection.cc:57-92 | In every reachable state at most one thread holds the lock; owning_thread_ names it exactly once ownership is recorded; recursion_ is its nesting depth, plus the acquisition or release in flight. |
| CriticalSection.CountersHaveOneWriter | webrtc/base/criticalsection.cc:92-154 | In every reachable state at most one thread is about to change recursion_ or recursion_count_, so nothing comes between the read and the write of such a change, which are one step. |
| CriticalSection.ChecksPass | webrtc/base/criticalsection.cc:84-159 | Every debug check of the three operations holds whenever a thread evaluates it. |
| CriticalSection.HandOffAccounting | webrtc/base/criticalsection.cc:81-159 | lock_queue_ is the holder's depth plus the number of queued threads; queued threads without a holder have exactly one hand-off coming, a semaphore token or a releaser that owes one, and at any other time there is none. |
| CriticalSection.RecursionReadIsStable | webrtc/base/criticalsection.cc:158-159 | recursion_, read after the decrement of lock_queue_, is the reader's own remaining depth: nobody can have taken the lock in between. |
| CriticalSection.QueuedClosesFastPath | webrtc/base/criticalsection.cc:66-116 | While anyone is queued, no compare-and-swap of Enter or TryEnter takes the lock. |
| CriticalSection.StepRefines | webrtc/base/criticalsection.cc:57-159 | Each step is one step, or none, of an abstract recursive lock by the same thread, and which one is said: the lock is taken exactly by a compare-and-swap or increment that finds the counter zero, by the increment of the owner and by the end of a wait, and given back exactly by the decrement of the counter. |
| CriticalSection.RunRefines | webrtc/base/criticalsection.cc:57-159 | Every run of the threads is, step for step, the run of the abstract recursive lock from Free that those operations make up. |
| CriticalSection.HandOffCompletes | webrtc/base/criticalsection.cc:86-159 | From any reachable state with a queued thread and no holder, the releaser and that thread alone reach, in at most four steps, a state in which it holds the lock: no wake-up is lost. |
| CriticalSectionCalls.TryEnterReturns | webrtc/base/criticalsection.cc:115-137 | From every reachable state the steps of a TryEnter alone take the lock, once more, with every field as it should be, exactly when the caller holds it or nobody holds it and nobody is queued; in every other case they return with nothing changed. |
| CriticalSectionCalls.EnterReturns | webrtc/base/criticalsection.cc:58-107 | In the same cases the steps of an Enter alone take the lock, once more, without waiting. |
| CriticalSectionCalls.EnterQueues | webrtc/base/criticalsection.cc:58-86 | In every other case they spin exactly 3000 times and then raise the queue counter, and wait unless a token is there. |
| CriticalSectionCalls.WaitReturns | webrtc/base/criticalsection.cc:86-107 | A waiting thread for which there is a token takes the lock and returns from Enter. |
| CriticalSectionCalls.LeaveReturns | webrtc/base/criticalsection.cc:140-160 | The steps of a Leave alone give the lock back once; the last Leave clears the owner fields and leaves one semaphore token exactly if somebody is queued. |
| Framing.FrameBytes | webrtc/base/asynctcpsocket.cc:288-290 | A frame is the high byte of the length, its low byte, and the packet. |
| Framing.ParseFrames | webrtc/base/asynctcpsocket.cc:306-325 | Any list of packets that fit their length field, framed back to back and followed by anything, is parsed to that list and then the parse of what follows. |
| Framing.ParseConserves | webrtc/base/asynctcpsocket.cc:306-325 | For every byte string: the parsed packets framed again, followed by the rest, are the bytes parsed; every parsed packet fits; the rest holds no complete frame. |
| Framing.ParseAppend | webrtc/base/asynctcpsocket.cc:306-325 | The parse of a longer stream continues the parse of its start. |
| Framing.RecoveredIffFits | webrtc/base/asynctcpsocket.cc:279-290 | A framed packet is recovered by the receiver if and only if its length is below 65536. |
| Framing.OversizedPacketIsMisframed | webrtc/base/asynctcpsocket.cc:279-290 | Send accepts a packet, longer than its 16-bit length field can say, that the receiver does not recover. |
| Framing.SendIsAllOrNothing | webrtc/base/asynctcpsocket.cc:277-304 | For every buffer, packet and result of the socket: the packet goes out whole, the first bytes the socket took now and the others from the buffer, or leaves no byte on the wire and the buffer as it was. |
| Framing.SendReturns | webrtc/base/asynctcpsocket.cc:277-304 | Send refuses exactly the packets over 65538 bytes, returns the length when it made progress or dropped the packet behind a pending frame, and otherwise what the socket returned, or -1. |
| Framing.RecvHasSpace | webrtc/base/asynctcpsocket.cc:204-212 | Growing the input buffer keeps its bounds, and a Recv is offered space exactly while the buffer can hold more: at least 128 bytes, unless the buffer has grown to its limit of 65538. |
| Framing.FullBufferHasFrame | webrtc/base/asynctcpsocket.cc:306-317 | A full input buffer always contains a complete frame. |
| Framing.StepKeepsInv | webrtc/base/asynctcpsocket.cc:156-325 | Every send, write event and read event, whatever the socket answers, keeps: every byte of every packet that made progress is received, in flight or buffered, in order; delivered is the parse of what was received; the input buffer is not full. |
| Framing.RunKeepsInv | webrtc/base/asynctcpsocket.cc:156-325 | So does every run of them. |
| Framing.DeliveredInOrder | webrtc/base/asynctcpsocket.cc:156-325 | For every run of partial sends, drops, write events and receive chunks: the delivered packets are a prefix, in order and byte for byte, of the packets whose Send made progress, if and only if as many of these as have been delivered fit their length field; in particular when all of them fit. |
| Framing.DeliveredIffFits | webrtc/base/asynctcpsocket.cc:156-325 | Once nothing is under way, the delivered packets are a prefix of those that made progress, and then all of them with no byte left over, if and only if every one of these fits its length field. |
| Framing.ChunkingIrrelevant | webrtc/base/asynctcpsocket.cc:202-241 | After any two runs that received the same bytes, the same packets are delivered and the same bytes are left over. |
| Framing.ReadMakesProgress | webrtc/base/asynctcpsocket.cc:202-226 | In every reachable state a read event takes the next bytes under way: as many as the stream gives, up to all of them and the room there is, and at least one. |
| Framing.WriteSends | webrtc/base/asynctcpsocket.cc:245-250 | In every reachable state a write event hands over exactly the pending bytes that the socket takes and keeps the others, and changes nothing when it takes none. |
| Framing.EverythingArrives | webrtc/base/asynctcpsocket.cc:156-325 | From every reachable state some write and read events bring every byte under way to the receiver; then all packets that made progress are delivered, with no byte left over, if and only if they fit their length field. |
| AsyncTcpSocket.Socket.constructor | webrtc/base/asynctcpsocket.cc:59-68 | A new socket has empty buffers and room for the smallest Recv. |
| AsyncTcpSocket.Socket.FlushOutBuffer | webrtc/base/asynctcpsocket.cc:156-172 | Hands the sent bytes over and moves the others to the front, in place; a result of the socket that is not positive or too large changes nothing. |
| AsyncTcpSocket.Socket.AppendFrame | webrtc/base/asynctcpsocket.cc:289-291 | Puts the length field and the packet into the empty output buffer; the size checks of the two appends pass if and only if the packet is at most 65536 bytes long. |
| AsyncTcpSocket.Socket.AppendToOutBuffer | webrtc/base/asynctcpsocket.cc:174-178 | Appends the bytes; its debug check passes if and only if the buffer stays within its maximum. |
| AsyncTcpSocket.Socket.Send | webrtc/base/asynctcpsocket.cc:277-304 | Refuses, drops, sends in part or sends whole as the framing specification says, error value included: on progress the bytes sent and kept are the two parts of the frame. Its debug checks fail exactly for the accepted packets of 65537 and 65538 bytes that reach the buffer. |
| AsyncTcpSocket.Socket.OnWriteEvent | webrtc/base/asynctcpsocket.cc:245-255 | Sends exactly the first bytes of the pending frame that the socket takes and keeps the others, or changes nothing, and reports readiness exactly when the buffer is empty. |
| AsyncTcpSocket.Socket.ProcessInput | webrtc/base/asynctcpsocket.cc:306-325 | The in-place loop extracts exactly the packets of the parse and leaves exactly its rest at the front of the buffer. |
| AsyncTcpSocket.MoveDown | webrtc/base/asynctcpsocket.cc:168-322 | The memmove puts the later elements at the front. |
| AsyncTcpSocket.Socket.RecvOnce | webrtc/base/asynctcpsocket.cc:204-224 | Makes room as the source does, takes what the stream gives, and appends it. |
| AsyncTcpSocket.Socket.Receive | webrtc/base/asynctcpsocket.cc:202-228 | Takes the next bytes of the stream, in order, at least one if there is one and space for it, and reads a willing stream until it or the space is used up; the loop terminates. |
| AsyncTcpSocket.Socket.Fill | webrtc/base/asynctcpsocket.cc:213-225 | SetSize after a Recv never reallocates and keeps the contents in front of the received bytes. |
| AsyncTcpSocket.Socket.OnReadEvent | webrtc/base/asynctcpsocket.cc:202-241 | Signals the packets complete in the old buffer and the received bytes together, and keeps the bytes after them. |
| AsyncTcpSocket.Perform | webrtc/base/asynctcpsocket.cc:156-325 | Each operation on a pair of sockets joined by an in-order stream is a step of the link model. |
| AsyncTcpSocket.Execute | webrtc/base/asynctcpsocket.cc:156-325 | Over every run of two new sockets, the packets signalled at one end are a prefix, in order and byte for byte, of those whose Send handed bytes to the stream at the other, if and only if as many of these as have been signalled fit their length field. |
| ByteOrder.LittleEndianRoundTrip | webrtc/base/byteorder.h:83-126 | A value that fits k bytes, stored low byte first, is read back. |
| ByteOrder.BigEndianRoundTrip | webrtc/base/byteorder.h:38-81 | A value that fits k bytes, stored high byte first, is read back. |
| ByteOrder.BigEndianIsOnto | webrtc/base/byteorder.h:38-81 | Every byte string is the encoding of the value read from it, which fits. |
| ByteOrder.OrdersAreReversed | webrtc/base/byteorder.h:38-126 | The two orders hold the same bytes in reverse. |
| ByteOrder.BigEndianAt | webrtc/base/byteorder.h:38-59 | Byte i is the value shifted right by its place and cut to eight bits, as the setters write it. |
| BufferT.Truncated | webrtc/base/buffer.h:290-293 | A prefix, as long as the smaller of the two lengths. |
| BufferT.GrowthRule | webrtc/base/buffer.h:320-339 | Storage never shrinks and always suffices: a request within it changes nothing, one beyond it gets half as much again as there was if headroom is asked for and that is more, and otherwise what it asks for. |
| BufferT.Buffer.WithCapacity | webrtc/base/buffer.h:81-100 | The contents given, in storage of the larger of size and capacity. |
| BufferT.Buffer.EnsureCapacityWithHeadroom | webrtc/base/buffer.h:320-339 | Contents and size are kept; the capacity becomes the request, or half again the old one if headroom is asked for and that is more; nothing is copied when there is room. |
| BufferT.Buffer.EnsureCapacity | webrtc/base/buffer.h:298-302 | The same without headroom: the capacity becomes the larger of the old one and the request. |
| BufferT.Buffer.SetSize | webrtc/base/buffer.h:290-293 | Keeps the contents up to the smaller size, with the growth and copying of the cost model. |
| BufferT.Buffer.AppendData | webrtc/base/buffer.h:230-238 | Appends in place or in new storage, with the growth and copying of the cost model. |
| BufferT.Buffer.SetData | webrtc/base/buffer.h:187-191 | Replaces the contents, copying none of the old ones. |
| BufferT.Buffer.Clear | webrtc/base/buffer.h:306-309 | Empties the buffer and keeps its storage. |
| BufferT.AmortisedGrowth | webrtc/base/buffer.h:187-339 | Over every run of AppendData, SetData, SetSize and Clear: elements copied never exceed three times the capacity, the capacity never shrinks, and it outgrows the initial one only up to half again the largest size reached. |
| Words.BitAt | webrtc/base/bitbuffer.cc:237-256 | The bits of a number stand high bit first: each is the number shifted right by its place, modulo two. |
| ExpGolomb.CodeIsLowBits | webrtc/base/bitbuffer.cc:288-293 | The code of v, n-1 zeros and the n bits of v+1, is the low 2n-1 bits of v+1, and n is at most 32. |
| ExpGolomb.ReadCode | webrtc/base/bitbuffer.cc:158-188 | A stream that starts with the code of a value reads as that value, using exactly the code. |
| ExpGolomb.ReadIffCode | webrtc/base/bitbuffer.cc:158-188 | A read succeeds with a value and length if and only if the stream starts with that value's code, of that length. |
| ExpGolomb.ReadIsCode | webrtc/base/bitbuffer.cc:158-188 | Whatever is read was the code of the value read, which is below UINT32_MAX. |
| ExpGolomb.ReadFollowsClause91 | webrtc/base/bitbuffer.cc:158-188 | After z zeros and a one, the value read is the number in the next z bits plus 2^z - 1, as clause 9.1 of H.264 says. |
| ExpGolomb.WriteAllIsCodes | webrtc/base/bitbuffer.cc:282-294 | A list written back to back is the concatenation of its codes and touches nothing else. |
| ExpGolomb.RoundTrip | webrtc/base/bitbuffer.cc:158-294 | Any list of values below UINT32_MAX, written from any position with enough room, is read back as the same list ending at the same position; no bit outside is touched. |
| ExpGolomb.SignedBijection | webrtc/base/bitbuffer.cc:190-308 | The signed mapping is a bijection between [-(2^31-1), 2^31-1] and the values below UINT32_MAX. |
| ExpGolomb.SignedOrder | webrtc/base/bitbuffer.cc:190-308 | The signed values take up the unsigned ones in the order 0, 1, -1, 2, -2, and so on, as clause 9.1.1 of H.264 says. |
| ExpGolomb.SignedOnTheWire | webrtc/base/bitbuffer.cc:190-201 | So the code of 2k - 1 is read as k and the code of 2k as -k. |
| ExpGolomb.SignedRoundTrip | webrtc/base/bitbuffer.cc:190-308 | Any list of signed values other than INT32_MIN is read back. |
| BitBuffer.LowestBitsAre | webrtc/base/bitbuffer.cc:21-24 | The mask keeps exactly the low bits. |
| BitBuffer.HighestBitsAre | webrtc/base/bitbuffer.cc:28-33 | The mask and shift give exactly the high bits. |
| BitBuffer.WritePartialByteIs | webrtc/base/bitbuffer.cc:43-60 | The bits from the offset on are replaced by the top bits of the source, and whatever the source has below them is or-ed into the rest of the byte. |
| BitBuffer.WritePartialByteKeeps | webrtc/base/bitbuffer.cc:43-60 | So the rest of the byte is kept when the source has nothing there, as in every call. |
| BitBuffer.FieldRoundTrip | webrtc/base/bitbuffer.cc:110-280 | Bits written for a value of n <= 32 bits are read back as the value, whatever surrounds them. |
| BitBuffer.BitBufferWriter.PeekBits | webrtc/base/bitbuffer.cc:110-138 | At any bit offset: succeeds exactly when the bits are there and at most 32, with the 32-bit word that ends in exactly those bits, and moves nothing. |
| BitBuffer.BitBufferWriter.PeekAcrossBytes | webrtc/base/bitbuffer.cc:114-136 | The byte loop shifts in exactly the bits of the partial first byte, the whole bytes and the partial last byte. |
| BitBuffer.BitBufferWriter.ConsumeBits | webrtc/base/bitbuffer.cc:148-156 | Moves by the count exactly when that many bits remain. |
| BitBuffer.BitBufferWriter.ReadBits | webrtc/base/bitbuffer.cc:140-142 | Peek and consume together, all or nothing. |
| BitBuffer.BitBufferWriter.Seek | webrtc/base/bitbuffer.cc:211-219 | Moves exactly to the positions inside the buffer or at its end, and nowhere otherwise. |
| BitBuffer.BitBufferWriter.CountLeadingZeros | webrtc/base/bitbuffer.cc:166-173 | The loop counts the zeros, stops at a one or at the end, and terminates. |
| BitBuffer.BitBufferWriter.ReadExponentialGolomb | webrtc/base/bitbuffer.cc:158-188 | Reads exactly what the code at the current offset stands for and moves past it, or fails and moves nothing; the restoring Seek never fails. |
| BitBuffer.BitBufferWriter.ReadSignedExponentialGolomb | webrtc/base/bitbuffer.cc:190-201 | The same under the signed mapping, with a representable result. |
| BitBuffer.BitBufferWriter.WriteBits | webrtc/base/bitbuffer.cc:237-280 | At any offset: changes exactly the next n bits, to the low n bits of the value, high bit first, when there is room, and nothing otherwise, however large n is. |
| BitBuffer.BitBufferWriter.WriteRest | webrtc/base/bitbuffer.cc:260-276 | The byte loop and the last partial byte put down the rest of the bits and nothing else. |
| BitBuffer.BitBufferWriter.CountBits | webrtc/base/bitbuffer.cc:63-70 | The loop counts the bits of the binary representation. |
| BitBuffer.BitBufferWriter.WriteExponentialGolomb | webrtc/base/bitbuffer.cc:282-294 | Writes exactly the code, fails for UINT32_MAX or without room, and then changes nothing. |
| BitBuffer.BitBufferWriter.WriteSignedExponentialGolomb | webrtc/base/bitbuffer.cc:296-308 | The same under the signed mapping, failing for INT32_MIN. |
| BitBuffer.BitBufferWriter.WriteThenRead | webrtc/base/bitbuffer.cc:158-294 | A list written from any bit offset and read from there comes back, ending at the same offset, exactly when there is room for its codes. |
| Base64.TablesAgree | webrtc/base/base64.cc:32-69 | The two tables are inverse to each other, and the pad is no letter. |
| Base64.TablesAreRfc4648 | webrtc/base/base64.cc:27-69 | Entry v of the encoding table is character v of the alphabet of RFC 4648; the decoding table gives the index of exactly its characters, the pad for exactly the equals sign and white space for exactly the characters 9 to 13 and the blank. |
| Base64.EncodedText | webrtc/base/base64.cc:101-134 | The encoding of n bytes has ((n+2)/3)*4 characters: letters, and then one equals sign for each byte missing from the last group of three. |
| Base64.NoBitsLeftIff | webrtc/base/base64.cc:246-261 | The bits that reach no byte are zero exactly when the sextets are those of whole bytes, or are nothing but zeros. |
| Base64.RoundTrip | webrtc/base/base64.cc:96-276 | Under every combination of parse, pad and termination flags, the encoding of any bytes decodes to them, and all of it is used except pads where the flags disallow them. |
| Base64.StrictRebuilds | webrtc/base/base64.cc:137-276 | A string that strict decoding accepts is the encoding of the bytes returned. |
| Base64.StrictIsExact | webrtc/base/base64.cc:96-276 | Strict decoding succeeds on a string if and only if the string is the encoding of the returned bytes. |
| Base64.StrictDecodes | webrtc/base/base64.cc:137-276 | For every text and every pad and termination flag, DO_PARSE_STRICT decodes exactly the letters the text starts with and the pads that complete their last quantum; the bytes, the success and the text left are those of a definition without a scanner. |
| Base64.LenientDecodes | webrtc/base/base64.cc:137-276 | For every text and every pad and termination flag, DO_PARSE_ANY gives the bytes of the letters wherever other characters stand between them; success and the text left depend only on the letters and on the pads after the last of them, as a definition without a scanner says. |
| Base64.ShortQuantum | webrtc/base/base64.cc:179-191 | Pads that complete a quantum are used; pads that do not are rolled back to the first of them. |
| Base64.ScanStrict | webrtc/base/base64.cc:145-178 | A strict scan passes over letters, then pads, and nothing else. |
| Base64.ScanAny | webrtc/base/base64.cc:145-178 | A lenient scan takes the first letters, up to four, wherever noise stands between them. |
| Base64.LenientIgnoresNoise | webrtc/base/base64.cc:145-268 | With DO_PARSE_ANY and any other flags the output depends only on the letters; so does success when neither padding nor the buffer's end is required, and then it is exactly that no bits are left over. |
| Base64.NoiseInEncoding | webrtc/base/base64.cc:145-268 | Any text with the letters of an encoding decodes to the encoded bytes under DO_PARSE_ANY. |
| Base64.ScanWhite | webrtc/base/base64.cc:151-178 | A scan that skips spaces follows, state for state, the strict scan of the text without them. |
| Base64.WhiteIsStrictWithoutSpaces | webrtc/base/base64.cc:151-276 | For every text and every pad and termination flag, DO_PARSE_WHITE gives the bytes of strict decoding of the text without its spaces, and succeeds exactly when that does, unless padding is required and a space follows whole quanta that need none. |
| Base64.NewlineAfterFourLetters | webrtc/base/base64.cc:259-266 | Such a text: any four letters and a newline fail where the four letters alone succeed. |
| Base64Loops.EncodeGroup | webrtc/base/base64.cc:107-134 | One turn of the encoding loop writes the four characters of up to three bytes. |
| Base64Loops.EncodeFromArray | webrtc/base/base64.cc:96-135 | The loop fills the buffer with exactly the encoding, which is letters followed by the equals signs it wants. |
| Base64Loops.ScanCharacter | webrtc/base/base64.cc:145-178 | One turn of the scanning loop does what the character calls for. |
| Base64Loops.GetNextQuantum | webrtc/base/base64.cc:137-192 | The loop returns the next quantum in its zero-filled buffer, with pads that complete nothing rolled back. |
| Base64Loops.AppendBytes | webrtc/base/base64.cc:246-258 | Appends the bytes a quantum completes and keeps the bits left over. |
| Base64Loops.DecodeFromArray | webrtc/base/base64.cc:221-276 | The decoding loop returns the bytes, the success and the amount used of the decoding function. |
| Crc32.ShiftIsLinear | webrtc/base/crc32.cc:29-35 | The one-bit register step is linear over exclusive or. |
| Crc32.ShiftsAreInjective | webrtc/base/crc32.cc:29-35 | Any number of register steps is injective on 32-bit values. |
| Crc32.TableStep | webrtc/base/crc32.cc:45-47 | One byte by table look-up is one byte bit by bit. |
| Crc32.Incremental | webrtc/base/crc32.cc:40-49 | Updating with one part and then another is updating with both, for every start value. |
| Crc32.CrcFits | webrtc/base/crc32.cc:40-49 | The checksum stays a 32-bit value. |
| Crc32.WindowIsInjective | webrtc/base/crc32.cc:40-49 | Two windows of at most four bytes fed into one register leave it equal only if they are equal. |
| Crc32.BurstDetected | webrtc/base/crc32.cc:40-49 | Two messages that differ only inside a window of at most four consecutive bytes have different checksums. |
| Crc32Residue.Residue | webrtc/base/crc32.cc:21-49 | A message followed by its own checksum, low byte first, has the checksum 0x2144DF1C, whatever the message and the start value: the residue of CRC-32. |
| Crc32Residue.FeedNumber | webrtc/base/crc32.cc:44-47 | Feeding the bytes of a number, low byte first, is feeding them at once. |
| Crc32Residue.PolynomialInTable | webrtc/base/crc32.cc:21-36 | The table entry for the top bit of a byte is 0xEDB88320. |
| Crc32.EntryIsNotZero | webrtc/base/crc32.cc:25-26 | Only entry 0 of the table is zero, so the last entry tells a filled table from an empty one. |
| Crc32.Table.EnsureInited | webrtc/base/crc32.cc:24-38 | Fills the table with the bit-by-bit entries, and leaves a filled one alone. |
| Crc32.Table.Entry | webrtc/base/crc32.cc:28-35 | The inner loop computes the eight register steps of a table entry; which polynomial it is, PolynomialInTable says. |
| Crc32.Table.Fill | webrtc/base/crc32.cc:27-37 | The outer loop fills every entry. |
| Crc32.Table.Update | webrtc/base/crc32.cc:40-49 | The table-driven update equals the bit-by-bit checksum for every start value and message, whether or not the table was initialised; that this is CRC-32, Residue says. |
| EventLogger.StepKeepsInv | webrtc/base/event_tracer.cc:122-227 | Every step of a producer, of the logging thread or of the thread calling Start and Stop keeps the conservation and phase invariant. |
| EventLogger.RunKeepsInv | webrtc/base/event_tracer.cc:122-227 | So does every run, with any number of producers and any alternation of Start and Stop. |
| EventLogger.Conservation | webrtc/base/event_tracer.cc:122-227 | In every reachable state what was appended is, in order, what each Start discarded and each session wrote, then the batch being written, then what is pending. |
| EventLogger.ChecksPass | webrtc/base/event_tracer.cc:130-207 | Start finds no open file and the flag clear, Log finds its file open, and no signal is left over between sessions. |
| EventLogger.SessionsWriteTheirEvents | webrtc/base/event_tracer.cc:129-227 | In every reachable state each finished session wrote exactly a stretch of the append history, beginning at its clear, reaching at least to its shutdown Set, and ending before the next session's clear: in order, once, and in no other session. |
| EventLogger.StopReturns | webrtc/base/event_tracer.cc:216-227 | When Stop's join goes through, everything appended between the clear and the Set is at the head of the file. |
| EventLogger.JoiningMakesProgress | webrtc/base/event_tracer.cc:135-227 | Once Stop is joining, every effective step of a producer or of the logging thread decreases a measure, however they interleave, and the logging thread always has one. |
| EventLogger.LogLeavesLess | webrtc/base/event.cc:82-134 | So does a Wait that times out although the event is set, which stays set for the next Wait. |
| EventLogger.StopCompletes | webrtc/base/event_tracer.cc:135-227 | Left to itself the logging thread writes everything outstanding within the bound, and the join goes through. |
| EventLogger.RunningLogsEverything | webrtc/base/event_tracer.cc:135-170 | From every reachable state of a running session, wherever its logging thread is, that thread alone, its waits timing out, brings everything outstanding into the file, in order and within a bound. |
| EventLogger.NoStaleEventsIff | webrtc/base/event_tracer.cc:197-204 | For every run that is about to clear the queue: the session being started writes only events of its own in every continuation, if and only if no producer is then in flight. |
| EventLogger.FreshSession | webrtc/base/event_tracer.cc:122-227 | A session opened with nothing of an earlier one in flight, pending or being written writes only events of its own. |
| EventLogger.InFlightEventIsWritten | webrtc/base/event_tracer.cc:197-204 | A producer in flight when a session is activated carries an event of an earlier session, and there is a continuation in which that event is all the session writes. |
| EventLogger.ProducerInFlightAtClear | webrtc/base/event_tracer.cc:197-204 | From the start, for any producer and event, a run that reaches the clear of the second session with that producer in flight from the first. |
| EventLogger.StaleEventIsWritten | webrtc/base/event_tracer.cc:197-204 | From the start, a run in which the second session writes an event of the first. |
| CopyOnWriteBuffer.Handle.Point | webrtc/base/scoped_ref_ptr.h:118-126 | Assigning a pointer counts the new storage and releases the old one; every count stays the number of handles that share the storage. |
| CopyOnWriteBuffer.Handle.OneRefIsAlone | webrtc/base/copyonwritebuffer.cc:101 | A count of one means that no other handle shares the storage. |
| CopyOnWriteBuffer.Handle.CloneDataIfReferenced | webrtc/base/copyonwritebuffer.cc:100-108 | Afterwards this handle shares with nobody, stands for the same bytes, and has at least the capacity. |
| CopyOnWriteBuffer.Handle.SetData | webrtc/base/copyonwritebuffer.h:147-157 | Replaces this handle's bytes, by exactly those given, and no other's; the capacity stays if it suffices and never shrinks; nothing is allocated for no bytes. |
| CopyOnWriteBuffer.Handle.AppendData | webrtc/base/copyonwritebuffer.h:179-192 | Puts the bytes behind those of this handle, which stay, and changes no other; the capacity stays if it suffices and never shrinks; the handle is consistent if and only if it had storage or something was appended. |
| CopyOnWriteBuffer.Handle.AppendHandle | webrtc/base/copyonwritebuffer.h:201-203 | Puts the bytes of another handle, which keeps them, or its own, behind those of this one. |
| CopyOnWriteBuffer.Handle.SetSize | webrtc/base/copyonwritebuffer.cc:50-69 | Truncates or extends this handle to exactly the size, and no other, keeping each byte up to the smaller size, and the capacity if it suffices. |
| CopyOnWriteBuffer.Handle.EnsureCapacity | webrtc/base/copyonwritebuffer.cc:71-86 | Makes the capacity the larger of the old one and the request, and changes no handle's bytes. |
| CopyOnWriteBuffer.Handle.Clear | webrtc/base/copyonwritebuffer.cc:88-98 | Empties this handle and no other, keeping its capacity. |
| CopyOnWriteBuffer.Handle.Write | webrtc/base/copyonwritebuffer.h:132-135 | A write through operator[] changes one byte of this handle and nothing of any other. |
| CopyOnWriteBuffer.Handle.Assign | webrtc/base/copyonwritebuffer.h:110-117 | The handle takes the value of the other; all others keep theirs. |
| CopyOnWriteBuffer.Handle.Move | webrtc/base/copyonwritebuffer.h:119-124 | The handle takes the value and leaves the other without storage; a handle moved to itself keeps its value. |
| CopyOnWriteBuffer.Handle.MovePointer | webrtc/base/scoped_ref_ptr.h:137-140 | Move assignment of the pointer through a temporary keeps every count right. |
| CopyOnWriteBuffer.Handle.Swap | webrtc/base/copyonwritebuffer.h:221-223 | The two handles exchange their values and no other changes, also for a handle with itself. |
| CopyOnWriteBuffer.Handle.Equals | webrtc/base/copyonwritebuffer.cc:41-48 | Equality holds exactly when both have no storage, or both have storage with the same bytes. |
| CopyOnWriteBuffer.OperationsHaveTheirEffect | webrtc/base/copyonwritebuffer.h:110-223 | What each operation does to the value of its handle, byte for byte, and that it does nothing to any handle it does not act on. |
| CopyOnWriteBuffer.Untouched | webrtc/base/copyonwritebuffer.h:110-223 | A handle that no operation of a run acts on keeps its value, whatever it shares. |
| CopyOnWriteBuffer.Execute | webrtc/base/copyonwritebuffer.h:110-223 | Over every run of copy, move, swap, write, SetData, AppendData, SetSize, EnsureCapacity and Clear on any handles, each handle behaves as an independent byte sequence, every count is right, and no storage in use has capacity 0. |
| CopyOnWriteBuffer.ExecuteFromNew | webrtc/base/copyonwritebuffer.h:110-223 | The same for every run on any number of newly constructed handles. |
| WireFormat.VarintRoundTrip | webrtc/base/bytebuffer.cc:92-252 | A value below 128^k is written in at most k bytes that are read back as it, whatever follows. |
| WireFormat.VarintFailsIff | webrtc/base/bytebuffer.cc:231-252 | A read of at most k bytes fails exactly when the first k, or all there are, ask for another byte, and then it has used them. |
| WireFormat.VarintIsCanonical | webrtc/base/bytebuffer.cc:92-252 | The bytes read are the ones written for the 64-bit value returned if and only if there is only one, or the last carries something and, being the tenth, is 1. |
| WireFormat.UselessByte | webrtc/base/bytebuffer.cc:231-252 | An input read as 0 although another is written for 0: its last byte is useless. |
| WireFormat.LostBit | webrtc/base/bytebuffer.cc:231-252 | Another: its tenth byte carries a bit that the 64-bit shift cuts off. |
| WireFormat.SumFits | webrtc/base/bytebuffer.cc:238-246 | The bytes of a read add up to a 64-bit value if and only if they are fewer than ten or the tenth is at most 1. |
| WireFormat.VarintOnTheWire | webrtc/base/bytebuffer.cc:92-101 | Byte i of a varint holds the seven bits of the value from bit 7i on, with the top bit set on every byte but the last. |
| WireFormat.FixedOnTheWire | webrtc/base/bytebuffer.cc:61-87 | Byte i of an integer is the one of its place from the top in network order or on a big-endian host, and from the bottom otherwise. |
| WireFormat.TwoBytesOnTheWire | webrtc/base/bytebuffer.cc:65-68 | A 16-bit integer is its high byte and its low byte in network order, and the reverse in host order on a little-endian host. |
| WireFormat.ItemRoundTrip | webrtc/base/bytebuffer.cc:61-274 | Any 8, 16, 24, 32 or 64-bit integer, any of the 2^64 varints and any byte string is recovered in either byte order, with what follows left over; a varint takes at most ten bytes. |
| WireFormat.ReadFailsIff | webrtc/base/bytebuffer.cc:172-274 | A read of an integer or a byte string fails exactly when there are too few bytes, and leaves them; one of a varint fails exactly when none of the first ten bytes, or of all there are, ends it, and leaves what follows. |
| WireFormat.RoundTrip | webrtc/base/bytebuffer.cc:61-274 | Any sequence of such items is recovered by the matching sequence of reads, with nothing left over. |
| ByteBuffer.LowThree | webrtc/base/bytebuffer.cc:70-77 | The three bytes taken from the memory of a four-byte integer are its low three, in either order. |
| ByteBuffer.ZeroByte | webrtc/base/bytebuffer.cc:190-205 | Reading three bytes into a zeroed four-byte integer gives their value. |
| ByteBuffer.Writer.constructor | webrtc/base/bytebuffer.cc:17-47 | A new writer is empty, has the order asked for and room for 4096 bytes. |
| ByteBuffer.Writer.Resize | webrtc/base/bytebuffer.cc:120-131 | Keeps the contents up to the new size, in the same storage if it suffices, and otherwise in new storage of the larger of the size and half again the old one. |
| ByteBuffer.Writer.ReserveWriteBuffer | webrtc/base/bytebuffer.cc:111-118 | Makes room at the end and keeps the contents in front of it. |
| ByteBuffer.Writer.WriteBytes | webrtc/base/bytebuffer.cc:107-109 | Appends exactly the bytes, across any reallocation. |
| ByteBuffer.Writer.WriteUInt | webrtc/base/bytebuffer.cc:61-87 | Appends the low bytes of the value in the buffer's order, for every width. |
| ByteBuffer.Writer.WriteUVarint | webrtc/base/bytebuffer.cc:92-101 | The loop appends exactly the variable-length encoding. |
| ByteBuffer.Writer.Clear | webrtc/base/bytebuffer.cc:133-136 | Empties the buffer and keeps its storage, all zeros. |
| ByteBuffer.Writer.WriteAll | webrtc/base/bytebuffer.cc:61-131 | Any sequence of writes appends the encodings of its items, across any reallocations. |
| ByteBuffer.Reader.ReadBytes | webrtc/base/bytebuffer.cc:266-274 | Takes exactly the next bytes, or nothing if there are too few. |
| ByteBuffer.Reader.Consume | webrtc/base/bytebuffer.cc:276-281 | Skips exactly that many bytes, or nothing. |
| ByteBuffer.Reader.ReadUInt | webrtc/base/bytebuffer.cc:172-229 | Reads the value in the buffer's order, for every width, or fails and leaves the bytes. |
| ByteBuffer.Reader.ReadVarintBytes | webrtc/base/bytebuffer.cc:236-251 | The loop computes the value cut to 64 bits, and leaves the bytes it looked at consumed even when it fails. |
| ByteBuffer.Reader.ReadUVarint | webrtc/base/bytebuffer.cc:231-252 | The same for at most ten bytes. |
| ByteBuffer.WriteThenRead | webrtc/base/bytebuffer.cc:61-274 | A reader over what a writer holds recovers every item of any list in either order, with nothing left over. |
| BufferQueue.FirstInFirstOut | webrtc/base/bufferqueue.cc:37-92 | Over every run of the bounded FIFO, packets leave in the order in which they were accepted, none lost and none twice, at most the capacity is queued, and a read gets a prefix of its packet. |
| BufferQueue.BufferQueue.constructor | webrtc/base/bufferqueue.cc:17-19 | An empty queue that has allocated nothing. |
| BufferQueue.BufferQueue.ReadFront | webrtc/base/bufferqueue.cc:45-65 | Returns the front packet, truncated to the room given, removes it, puts its buffer at the end of the free list, and notifies exactly when the queue was full; an empty queue is left alone. |
| BufferQueue.BufferQueue.WriteBack | webrtc/base/bufferqueue.cc:67-92 | Appends a copy of the whole packet unless the queue is full, in a recycled buffer when there is one, changing no other packet, and notifies exactly when the queue was empty. |
| BufferQueue.BufferQueue.TakeBuffer | webrtc/base/bufferqueue.cc:75-81 | Takes the last free buffer, or allocates one, of the larger of the size and the default size, only when there is none, so that at most the capacity is ever allocated. |
| BufferQueue.BufferQueue.Clear | webrtc/base/bufferqueue.cc:37-43 | Every buffer goes to the free list. |
| BufferQueue.BufferQueue.Execute | webrtc/base/bufferqueue.cc:37-92 | Over every run the queue holds what the FIFO holds and the reads return what its reads return; queue and free list never share a buffer, and the buffers ever allocated never exceed the capacity. |
| BufferQueue.ExecuteFromNew | webrtc/base/bufferqueue.cc:17-92 | A new queue after any run holds what the FIFO holds, its reads returned what the FIFO's reads return, packets left in the order in which they were accepted, and at most the capacity of buffers was allocated. |

## Left out

- The Windows and pthread branches of the lock and of the event, and `GlobalLockPod`: foreign calls, or a one-variable lock with only easy claims.
- Weak memory orders, and overflow of `lock_queue_`, `recursion_` and `recursion_count_`.
- Real sockets, connecting, listening and accepting, `SendRaw`, options and error codes other than the return values; the input overflow branch of `OnReadEvent`, which cannot be reached.
- Unbounded waiting in the lock: that a particular queued thread is served under every scheduler is not claimed and does not hold of the source.
- JSON formatting, file output and the copying of string arguments in the event logger, and the priority of its thread.
- BitBuffer.BitBufferWriter.WriteBits: a bit count of 0, and one above 64 for which there is room, are excluded, because the source shifts a 64-bit value by 64 bits or by a wrapped count there.
- BitBuffer.BitBufferWriter.PeekBits: a count of 0 at the very end of the buffer is excluded, because the source reads the byte after the end there.
- BitBuffer.BitBufferWriter.ReadBits: excludes the same, for the same reason.
- ReadUInt8, ReadUInt16, ReadUInt32, ConsumeBytes and their writing counterparts in the bit buffer: calls of the modelled operations with a fixed count.
- Null output pointers, which the readers reject before doing anything.
- BufferT.AmortisedGrowth: does not cover EnsureCapacity, which reallocates without headroom, so repeated calls of it copy without such a bound.
- BufferT.Buffer.SetSize: says nothing of the elements past the old size, which the source leaves uninitialised.
- CopyOnWriteBuffer.Execute: handles are given at the start of a run, and none is appended to itself; construction and destruction of a handle during a run are an assignment to, and a move from, one without storage. Storage is modelled by its bytes and capacity, as BufferT.Buffer provides them.
- CopyOnWriteBuffer.Handle.AppendHandle: a handle appended to itself is excluded when it shares its storage with nobody and the storage has to grow, because the source then copies from storage that it has released.
- Base64: `IsBase64Char`, `GetNextBase64Char` and `IsBase64Encoded`; the two tables are given by their ranges and proved to be those of the alphabet.
- The lock that BufferQueue takes around each operation, and its notification hooks beyond when they are called.
- `webrtc/api`, `webrtc/audio`, logging, strings and the other files of `webrtc/base`: they would only add easy members.
