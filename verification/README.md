# zig-blackpill firmware core, modelled in Dafny

This project models the sequential logic of a small STM32F4 ("Black Pill")
firmware. It is a command-and-telemetry node that talks CCSDS space packets
wrapped in KISS frames over a UART, and runs its work in threads under a tiny
strict-priority kernel. The modelled pieces are these:

- **Thread kernel** (`Rtos`, `Bits`, `StackFrame`). It keeps a 33-slot thread
  registry, a ready bitset and a delayed bitset; slot `p > 0` owns bit `p - 1`
  and slot 0 is the idle thread. `rtos_schedule` picks the highest ready slot
  (`LOG2 = 32 - clz`), or idle when nothing is ready. `rtos_tick` counts the
  delayed threads down. `rtos_delay` parks the current thread.
  `rtos_thread_create` builds the initial 16-word exception frame and paints
  the rest of the stack. The PendSV context switch is abstracted to
  `current := next`, plus a "switch requested" flag.
- **Circular byte buffer** (`CircularBuffer`): the 1024-byte FIFO with
  wrap-around indices.
- **KISS framing** (`KissFrame`): FEND/FESC byte stuffing, and the decoder
  that reads a frame out of a circular buffer.
- **Space packets** (`SpacePacket`, `ApidMap`). This covers the primary
  header of the CCSDS Space Packet Protocol (CCSDS 133.0-B-2, section 4.1.3),
  the header checks and sequence counting, the mod-256 checksum, and
  request/response processing through the APID handler table.
- **Big-endian words** (`Endian`), used by every 32-bit telemetry getter.
- **Frame buffer hand-off** (`FrameBuffer`): a circular buffer plus a
  `ready` flag, error counters and last statuses.
- **Periodic timer predicate and tick interrupt** (`SysTick`).
- **ID-indexed handler registries** (`Registry`, `Parameter`, `Telemetry`,
  `Action`).

Status codes are the datatype `StatusCodes.Status`. The header that numbers
them is not part of this model, so the byte each status is reported as is a
model choice (`STATUS_OK` is 0 and the codes are distinct). Byte buffers are
`seq<byte>`, 32-bit counters are `u32` with wrap-around written out, and the
kernel's bitsets are `bv32`. Handlers are Dafny function values; a `NULL`
handler is a missing map key or `None`.

Where the code and its documented intent disagree, the model keeps both: a
member that follows the code as written, a lemma exhibiting the
discrepancy, and a corrected member that the rest of the model uses (see
"## Findings").

## Model

| member | source | states |
|---|---|---|
| Common.IncU32 | src/app/spacepacket.c:115 | a 32-bit counter increment: one more, except that the largest value wraps to 0 |
| Endian.ToNetwork | src/utils/endian.c:10-16 | four bytes whose big-endian reading is the word, most significant byte first |
| Endian.Store | src/utils/endian.c:10-16 | writing a word into a buffer replaces exactly its first four bytes with the big-endian bytes and keeps the rest |
| Endian.BigEndianInjective | src/utils/endian.c:4-8 | two 4-byte strings with the same big-endian value are equal |
| Endian.FromToNetwork | src/utils/endian.c:4-16 | decoding an encoded word gives the word back |
| Endian.ToFromNetwork | src/utils/endian.c:4-16 | encoding a decoded 4-byte buffer gives the buffer back |
| Endian.FromNetworkPrefix | src/utils/endian.c:4-8 | decoding reads nothing beyond the first four bytes |
| StatusCodes.Code | src/app/spacepacket.c:207 | the reported status byte decodes back to the status, so statuses are told apart; only OK reports 0 |
| StatusCodes.Word | src/app/spacepacket.c:231-239 | a 32-bit getter reply is status OK with four data bytes that decode to the value |
| CircularBuffer.Size | src/utils/cbuf.c:35-41 | the fill level is below the capacity, and that many slots after `read` lies `write` |
| CircularBuffer.SizeIsDistance | src/utils/cbuf.c:35-41 | the fill level is `(write - read) mod 1024` |
| CircularBuffer.Copy | src/utils/cbuf.c:53-58 | a `memcpy` into a buffer changes exactly the target range, to the source bytes |
| CircularBuffer.Init | src/utils/cbuf.c:9-13 | an initialised buffer is valid and empty |
| CircularBuffer.Put | src/utils/cbuf.c:15-23 | CBUF_FULL, changing nothing, exactly when 1023 bytes are held; otherwise the byte is appended |
| CircularBuffer.PutContents | src/utils/cbuf.c:19-22 | storing at `write` and advancing it appends the byte to the contents |
| CircularBuffer.Get | src/utils/cbuf.c:25-33 | CBUF_EMPTY, changing nothing, exactly when empty; otherwise the oldest byte comes out and the rest stays in order |
| CircularBuffer.Read | src/utils/cbuf.c:43-63 | EMPTY iff empty, BUFFER_OVERFLOW iff more is asked than held, both unchanged; otherwise the oldest `size` bytes in order, the rest kept |
| CircularBuffer.ReadContents | src/utils/cbuf.c:52-62 | copying the first `size` slots and advancing `read` yields the FIFO prefix and keeps the suffix |
| CircularBuffer.ReadAsWritten | src/utils/cbuf.c:43-63 | the code's read: EMPTY iff empty and BUFFER_OVERFLOW iff more is asked than held, as in the corrected read, and the error paths copy nothing and leave `read` alone |
| CircularBuffer.ReadUnderflows | src/utils/cbuf.c:56-59 | a wrapped buffer read for 5 bytes over-copies and sets `read` to a wrapped-around value past the buffer |
| CircularBuffer.ReadAsWrittenAgrees | src/utils/cbuf.c:43-63 | outside the defective wrapped case the code's read has the corrected read's status, copies and final index |
| CircularBuffer.Store | src/utils/cbuf.c:71-79 | copying `src` in at `write`, split at the wrap point, puts byte `j` at slot `write + j` wrapped, and advances `write` by the length |
| CircularBuffer.StoreKeeps | src/utils/cbuf.c:71-79 | a store that fits leaves every held byte in its slot |
| CircularBuffer.StoreAppends | src/utils/cbuf.c:71-79 | a store that fits puts byte `j` at FIFO position `size + j` |
| CircularBuffer.StoreContents | src/utils/cbuf.c:71-79 | a store that fits appends `src` to the contents |
| CircularBuffer.Write | src/utils/cbuf.c:65-82 | OK iff the bytes fit, keeping one slot free, and then they are appended; otherwise BUFFER_OVERFLOW, unchanged |
| CircularBuffer.WriteAsWritten | src/utils/cbuf.c:65-82 | the code's write accepts iff the bytes fit into all 1024 slots, and a rejection changes nothing |
| CircularBuffer.WriteFillsToEmpty | src/utils/cbuf.c:67-81 | writing 1024 bytes into an empty buffer is accepted and leaves it reading as empty |
| CircularBuffer.WriteAsWrittenAgrees | src/utils/cbuf.c:65-82 | except when the write exactly fills all slots, the code's write is the corrected write |
| KissFrame.EscapeAppend | src/app/kiss_frame.c:21-43 | stuffing is byte by byte: stuffing `x + [b]` is stuffing `x` followed by the encoding of `b` |
| KissFrame.EscapeLength | src/app/kiss_frame.c:21-43 | stuffed length is the input length plus the number of FEND and FESC bytes |
| KissFrame.EscapeNoFend | src/app/kiss_frame.c:21-43 | stuffed bytes never contain FEND |
| KissFrame.EscapeAtMostDouble | src/app/kiss_frame.c:21-43 | stuffing at most doubles the length |
| KissFrame.Pack | src/app/kiss_frame.c:10-46 | the output is the stuffed input and one FEND; its length is `n + 1 +` the FEND/FESC count, at most `2n + 1`; FEND occurs only last |
| KissFrame.DecodeFacts | src/app/kiss_frame.c:56-109 | output only grows and never beyond 1024 bytes; a running decode consumed everything; a finished one ends at a FEND with data; an overflow zeroes byte 0 |
| KissFrame.DecodeCons | src/app/kiss_frame.c:56-108 | decoding is one byte step followed by decoding the rest |
| KissFrame.DecodeEnd | src/app/kiss_frame.c:66-67 | a FEND after at least one data byte finishes the frame and consumes only itself |
| KissFrame.DecodeEncode | src/app/kiss_frame.c:70-90 | decoding a byte's encoding appends that byte, with FESC,TFEND giving FEND and FESC,TFESC giving FESC |
| KissFrame.DecodeEscape | src/app/kiss_frame.c:56-108 | decoding stuffed bytes and a FEND appends the original bytes and stops after the FEND |
| KissFrame.PackRoundTrip | src/app/kiss_frame.c:10-110 | unpacking what pack produced for non-empty `x` gives `x`, consumes exactly the packed bytes and leaves later bytes |
| KissFrame.LeadingFendsSkipped | src/app/kiss_frame.c:60-64 | FENDs before any data byte produce nothing and are consumed |
| KissFrame.DecodeResumes | src/app/kiss_frame.c:56-108 | decoding in two pieces, carrying output and escape state across, is decoding the whole |
| KissFrame.Pass | src/app/kiss_frame.c:57-58 | one byte taken from the buffer is one decoder step |
| KissFrame.Scan | src/app/kiss_frame.c:56-108 | the loop over the buffer computes the decoder's result and removes exactly the consumed bytes |
| KissFrame.Unpack | src/app/kiss_frame.c:48-110 | the code's unpack: decodes with the escape flag starting false on every call, true iff a frame ended |
| KissFrame.EscapeLostBetweenCalls | src/app/kiss_frame.c:55 | a frame split right after FESC decodes TFEND literally, where the whole frame decodes FEND |
| KissFrame.EndsEscaped | src/app/kiss_frame.c:70-74 | a chunk ending in FESC leaves the decoder waiting on an escape |
| KissFrame.ResumedUnescaped | src/app/kiss_frame.c:75-82 | a fresh call sees TFEND as a literal byte |
| KissFrame.WholeEscaped | src/app/kiss_frame.c:70-82 | FESC,TFEND in one call decodes to FEND |
| KissFrame.UnpackResumable | src/app/kiss_frame.c:48-110 | unpack with the escape flag kept across calls, so that split frames decode as whole ones |
| SpacePacket.ParseHdr | src/app/spacepacket.c:52-86 | BUFFER_UNDERFLOW iff fewer than 6 bytes; otherwise every field within its bit width |
| SpacePacket.Byte0Parts | src/app/spacepacket.c:34-37 | byte 0 packs version, type, secondary-header flag and the top three APID bits |
| SpacePacket.Byte0OfParts | src/app/spacepacket.c:61-64 | a byte is its 3-1-1-3 bit fields put back together |
| SpacePacket.SplitParts | src/app/spacepacket.c:38-43 | the sequence-flag, count, length and APID splits are exact for fields within their widths |
| SpacePacket.ParseHeaderBytes | src/app/spacepacket.c:19-86 | parsing the corrected header bytes gives back every field |
| SpacePacket.HeaderBytesOfParse | src/app/spacepacket.c:19-86 | building from a parsed 6-byte header gives back the bytes |
| SpacePacket.Byte0OfParse | src/app/spacepacket.c:34-37 | byte 0 rebuilt from its parsed fields is the original byte |
| SpacePacket.HeaderBytesAsWritten | src/app/spacepacket.c:34-43 | the code's header bytes agree with the header layout everywhere except byte 2, which keeps only the count bits and loses the two flag bits |
| SpacePacket.ParseHeaderBytesAsWritten | src/app/spacepacket.c:39-40 | parsing the code's header bytes gives back every field except the sequence flags, which read 0 |
| SpacePacket.UnsegmentedFlagsLost | src/app/spacepacket.c:39-40 | a response header with flags UNSEGMENTED (3) parses with flags 0 |
| SpacePacket.BuildPacket | src/app/spacepacket.c:19-50 | the packet is 6 header bytes and the data, and its header parses back to the given one |
| SpacePacket.BuildPacketAsWritten | src/app/spacepacket.c:19-50 | the code's packet has the same size and data, but its header parses with the sequence flags cleared |
| SpacePacket.HeaderStatus | src/app/spacepacket.c:90-111 | each header error iff its check is the first one to fail, in the order version, type, secondary header, APID, data length; OK iff all pass |
| SpacePacket.ValidateHdrAsWritten | src/app/spacepacket.c:88-120 | the code's header check: its status, counters untouched on failure; on success the count becomes the last seen, the checksum counter is kept, and the out-of-sequence counter steps by one (32-bit wrap) exactly when the count is not `last + 1`, computed without wrapping |
| SpacePacket.SequenceWrapCountedAsWritten | src/app/spacepacket.c:114 | count 0 after count 16383 is counted out of sequence |
| SpacePacket.ValidateHdr | src/app/spacepacket.c:88-120 | the same checks and counter updates, with the out-of-sequence counter stepping by one exactly when the count is not `(last + 1) mod 2^14`, so 0 follows 16383 |
| SpacePacket.ValidateHdrAgrees | src/app/spacepacket.c:88-120 | away from the wrap both header checks agree |
| SpacePacket.InSequenceNotCounted | src/app/spacepacket.c:113-116 | a count that follows the last one modulo 2^14 is never counted out of sequence |
| SpacePacket.ValidateChecksum | src/app/spacepacket.c:122-135 | true iff the last byte is the sum mod 256 of all the bytes before it |
| SpacePacket.SealedChecksumOk | src/app/spacepacket.c:127-134 | appending the mod-256 sum to any non-empty bytes gives a packet whose checksum holds |
| SpacePacket.Request | src/app/spacepacket.c:137-190 | a request is header bytes, data and checksum, and its checksum holds |
| SpacePacket.DataSize | src/app/spacepacket.c:169 | the payload size is the packet size less 7, wrapping to `SIZE_MAX` for a header-only packet |
| SpacePacket.Process | src/app/spacepacket.c:137-228 | the processor with the corrected header check and header bytes: underflow below 6 bytes; header errors keep the counters; sequence and checksum counting; errors give no response; for a well-formed packet, a missing handler is INVALID_APID_HANDLER, an oversized reply halts, otherwise OK with a TM header echoing APID and count and the reply as data |
| SpacePacket.ProcessAsWritten | src/app/spacepacket.c:137-228 | the processor as written: an OK response comes from a well-formed request, and its header parses to the echo header with the sequence flags 0 |
| SpacePacket.ProcessAsWrittenAgrees | src/app/spacepacket.c:137-228 | the code's processor and the corrected one agree on halting, status, response length, last count and checksum counter, and on the out-of-sequence counter unless the last count is 16383 |
| SpacePacket.ProcessAsWrittenResponse | src/app/spacepacket.c:39-40 | an OK response of the code's processor differs from the corrected one only in byte 2, which keeps just the count bits |
| SpacePacket.SizeMismatch | src/app/spacepacket.c:169-182 | a payload longer than the header claims is BUFFER_OVERFLOW and a shorter one BUFFER_UNDERFLOW, with the header-only packet's wrap giving OVERFLOW |
| SpacePacket.ChecksumRejected | src/app/spacepacket.c:184-190 | a bad checksum is INVALID_CHECKSUM, with no response and the checksum error counter stepped |
| SpacePacket.RequestServed | src/app/spacepacket.c:137-228 | with the corrected header bytes, a sealed request to a registered handler is answered OK; the response header parses to the TM echo header with flags UNSEGMENTED and the data is status plus output |
| SpacePacket.RequestServedAsWritten | src/app/spacepacket.c:137-228 | as written, the same request is answered OK with the same data, but its header parses with sequence flags 0, not UNSEGMENTED |
| SpacePacket.OutOfSeqCount | src/app/spacepacket.c:231-239 | reports the out-of-sequence counter as four big-endian bytes |
| SpacePacket.CsumErrorCount | src/app/spacepacket.c:241-249 | reports the checksum error counter as four big-endian bytes |
| SpacePacket.LastSeqCountAsWritten | src/app/spacepacket.c:251-259 | the code's getter reports the checksum error counter |
| SpacePacket.LastSeqCountMisreported | src/app/spacepacket.c:257 | with last count 7 and 2 checksum errors the getter does not report 7 |
| SpacePacket.LastSeqCount | src/app/spacepacket.c:251-259 | reports the last received sequence count as four big-endian bytes |
| ApidMap.Handlers | src/app/apid_map.c:8-13 | APID 0 is action dispatch, 1 parameter get, 2 parameter set, 3 telemetry; every other APID has no handler |
| ApidMap.TelemetryServed | src/app/apid_map.c:12 | a telemetry request on APID 3 is answered with the getter's status and output |
| ApidMap.OutOfSeqCountServed | src/app/spacepacket.c:231-239 | a telemetry request on APID 3 for a point registered to the out-of-sequence getter is answered with status OK and the counter's four big-endian bytes |
| ApidMap.UnmappedApidRefused | src/app/spacepacket.c:195-199 | a valid request to APID 4 or above is INVALID_APID_HANDLER |
| Registry.Register | src/app/telemetry.c:11-21 | accepted iff the id is free; a duplicate gets the given status and leaves the map alone; keys grow by the id; no earlier entry is replaced |
| Registry.FirstRegistrationWins | src/app/telemetry.c:15-19 | registering an id twice keeps the first handler and rejects the second |
| Registry.RegisterCommutes | src/app/telemetry.c:11-21 | registering two distinct ids in either order gives the same map |
| Parameter.Register | src/app/parameter.c:12-23 | accepted iff the id is free, then the pair is stored; otherwise INVALID_HANDLER_REGISTRATION and unchanged |
| Parameter.Get | src/app/parameter.c:25-44 | INVALID_PAYLOAD_SIZE unless one byte; INVALID_PARAMETER_ID if unregistered; otherwise the getter's reply |
| Parameter.Set | src/app/parameter.c:46-66 | no output; INVALID_PAYLOAD_SIZE under two bytes; INVALID_PARAMETER_ID if unregistered; otherwise the setter's status on the bytes after the id |
| Parameter.GetAfterRegister | src/app/parameter.c:12-44 | after registering, a get of the id is the getter's reply |
| Parameter.SetAfterRegister | src/app/parameter.c:12-66 | after registering, a set of the id passes exactly the value bytes to the setter |
| Telemetry.Register | src/app/telemetry.c:11-21 | accepted iff the id is free, then stored; otherwise INVALID_HANDLER_REGISTRATION and unchanged |
| Telemetry.Dispatch | src/app/telemetry.c:23-42 | INVALID_PAYLOAD_SIZE unless one byte; INVALID_TELEMETRY_ID if unregistered; otherwise the getter's reply |
| Telemetry.DispatchAfterRegister | src/app/telemetry.c:11-42 | after registering, a request for the id is the getter's reply |
| Action.Register | src/app/action.c:11-21 | accepted iff the id is free, then stored; otherwise INVALID_HANDLER_REGISTRATION and unchanged |
| Action.Dispatch | src/app/action.c:23-44 | never any output; INVALID_PAYLOAD_SIZE unless one byte; INVALID_ACTION_ID if unregistered; otherwise the action's status |
| Action.DispatchAfterRegister | src/app/action.c:11-44 | after registering, a request for the id runs the action |
| FrameBuffer.Init | src/app/frame_buffer.c:85-89 | empty, not ready, counters zero, last statuses OK |
| FrameBuffer.WriteInner | src/app/frame_buffer.c:62-83 | over the corrected circular-buffer write: OK iff the bytes fit with one slot free, then appended and ready; otherwise BUFFER_OVERFLOW with only `ready` cleared; the lock is free afterwards |
| FrameBuffer.ReadInner | src/app/frame_buffer.c:25-60 | over the corrected circular-buffer write: not ready is OK with nothing changed; ready empties the buffer and clears `ready`; nothing held is CBUF_EMPTY; otherwise all bytes move in order, or the destination is reset on overflow |
| FrameBuffer.Read | src/app/frame_buffer.c:91-99 | the inner read (corrected capacity), plus read error counting and last read status; write bookkeeping untouched |
| FrameBuffer.Write | src/app/frame_buffer.c:101-109 | the inner write (corrected capacity), plus write error counting and last write status; read bookkeeping untouched |
| FrameBuffer.HandOff | src/app/frame_buffer.c:25-109 | a write then a read moves everything held and written, in order, to the destination and leaves the buffer empty |
| FrameBuffer.ReadAfterRead | src/app/frame_buffer.c:27-29 | a second read with nothing new written is OK and moves no byte; the only field it changes is the last read status, which becomes OK |
| FrameBuffer.ReadErrorCount | src/app/frame_buffer.c:113-121 | reports the read error counter as four big-endian bytes |
| FrameBuffer.WriteErrorCount | src/app/frame_buffer.c:133-141 | reports the write error counter as four big-endian bytes |
| FrameBuffer.ReadLastStatus | src/app/frame_buffer.c:123-131 | reports the last read status |
| FrameBuffer.WriteLastStatusAsWritten | src/app/frame_buffer.c:143-151 | the code's getter reports the last read status |
| FrameBuffer.WriteFailureHidden | src/app/frame_buffer.c:143-151 | a 1025-byte write on a fresh frame buffer is refused by the circular buffer as written and as corrected, yet the getter reports OK |
| FrameBuffer.WriteLastStatus | src/app/frame_buffer.c:143-151 | reports the last write status |
| SysTick.TimerExpired | src/hal/systick.c:26-47 | expired iff the armed timer is at or before `now`; if not, the armed timer is kept; on expiry it advances one period, or to `now + period` when more than a period late; a first poll with `period > 0` and `now + period < 2^32` arms the timer and reports not expired (otherwise the armed value wraps and the poll can expire at once) |
| SysTick.ArmedExpiries | src/hal/systick.c:26-47 | polling once per tick from an armed timer expires once at each deadline reached, period after period |
| SysTick.Rate | src/hal/systick.c:26-47 | `n` polls one tick apart from an unarmed timer report `(n - 1) / period` expiries |
| SysTick.Handler | src/hal/systick.c:65-73 | the tick counter steps with wrap-around, then one kernel tick, then a schedule; the kernel invariant is kept, the running thread stays current, and a switch is requested whenever the pick is not the running thread |
| Bits.SetBitLemma | src/rtos/thread.c:169 | setting bit `a` makes exactly `a` and the bits already set read as set |
| Bits.SetSame | src/rtos/thread.c:169 | the set bit reads as set |
| Bits.SetOther | src/rtos/thread.c:169 | setting bit `a` leaves other bits alone |
| Bits.ClearBitLemma | src/rtos/thread.c:96 | clearing bit `a` leaves exactly the other set bits |
| Bits.ClearSame | src/rtos/thread.c:96 | the cleared bit reads as clear |
| Bits.ClearOther | src/rtos/thread.c:96 | clearing bit `a` leaves other bits alone |
| Bits.BitOf | src/rtos/thread.c:92 | slot `p` in 1..32 owns bit `p - 1` |
| Bits.SlotInjective | src/rtos/thread.c:92 | distinct bits belong to distinct slots |
| Bits.BitOfSlotOf | src/rtos/thread.c:92 | the bit of a bit's slot is that bit |
| Bits.HighestFromIsSet | src/rtos/thread.c:22 | a top-down scan finds a set bit |
| Bits.HighestFromAbove | src/rtos/thread.c:22 | no bit above the scan's result is set |
| Bits.NoBitIsZero | src/rtos/thread.c:58 | a bitset with no bit set is 0 |
| Bits.Log2Highest | src/rtos/thread.c:22 | for a non-zero set, `32 - clz` is the slot of the highest set bit |
| Bits.Log2AtMost | src/rtos/thread.c:22 | with no bit at or above `n`, `LOG2` is at most `n` |
| Bits.ClearTop | src/rtos/thread.c:98 | clearing the top bit leaves no bit at or above it |
| Bits.Log2Decreases | src/rtos/thread.c:87-99 | `LOG2` of a non-zero set is a slot in 1..32, and clearing that slot's bit lowers it: the tick loop terminates |
| StackFrame.RoundDown | src/rtos/thread.c:129 | rounding down to 8 lands at most 7 below, and at most 4 below a word-aligned address |
| StackFrame.TopBounds | src/rtos/thread.c:129 | the aligned stack top is 8-aligned, a whole number of words in, and at most one word below the end |
| StackFrame.LimitBounds | src/rtos/thread.c:156 | the aligned stack limit is 8-aligned, a whole number of words in, and at most one word above the base |
| StackFrame.Fabricate | src/rtos/thread.c:129-161 | the saved sp is 16 words below the aligned top; the words there restore the initial context; the words from the aligned limit up to sp are painted; nothing else changes |
| StackFrame.PushFrame | src/rtos/thread.c:129-153 | the 16 pushes below the top restore as the initial context, and words outside the frame are untouched |
| StackFrame.Paint | src/rtos/thread.c:158-161 | every word from the limit up to just below sp is 0xBABECAFE, and nothing outside that range changes |
| StackFrame.FrameRestores | src/rtos/thread.c:132-150 | words laid down in push order restore as xPSR `1 << 24`, PC the handler, LR 0xE, R12 0xC, R0-R3 0-3, R4-R11 4-11 |
| Rtos.Pick | src/rtos/thread.c:55-64 | with nothing ready, the idle slot if registered; otherwise the highest ready slot |
| Rtos.Schedule | src/rtos/thread.c:55-71 | next is the pick; a switch is requested when next differs from current and only then newly; nothing else changes |
| Rtos.InvSchedulable | src/rtos/thread.c:62-63 | under the invariant the highest ready slot is registered, so the schedule assertion holds |
| Rtos.ScheduleInv | src/rtos/thread.c:55-71 | scheduling keeps the kernel invariant |
| Rtos.ScheduleIdempotent | src/rtos/thread.c:55-71 | scheduling twice with no change in between is scheduling once |
| Rtos.Switch | src/rtos/thread.c:173-218 | the context switch makes next current, clears the request, and changes nothing else |
| Rtos.SwitchThenScheduleQuiet | src/rtos/thread.c:66-70 | after a switch, scheduling again requests no further switch |
| Rtos.Create | src/rtos/thread.c:118-171 | the thread lands in slot `priority` with that priority and its sp; a non-idle slot's bit is now ready; idle never is; nothing else changes |
| Rtos.CreateInv | src/rtos/thread.c:164-170 | creating a thread keeps the kernel invariant |
| Rtos.Init | src/rtos/thread.c:40-53 | idle is registered, nothing ready or delayed, and scheduling picks idle |
| Rtos.Run | src/rtos/thread.c:72-82 | the first schedule picks next per the policy, keeps the invariant, requests the switch that starts the picked thread when it is not current, and changes nothing but `next` and the request |
| Rtos.Tick | src/rtos/thread.c:84-100 | every delayed thread counts down exactly once; those reaching 0 move from delayed to ready; nothing else changes |
| Rtos.TickVisit | src/rtos/thread.c:88-90 | each loop pass finds a registered slot with a non-zero timeout, so the assertions hold |
| Rtos.WorkStep | src/rtos/thread.c:98 | clearing the visited bit marks exactly it as visited |
| Rtos.ThreadsStep | src/rtos/thread.c:92-93 | after a pass, visited threads are counted down and others untouched |
| Rtos.ThreadAt | src/rtos/thread.c:93 | counting one slot down keeps the per-slot loop invariant |
| Rtos.ReadyStep | src/rtos/thread.c:94-95 | after a pass, the ready set has exactly the visited threads that expired added |
| Rtos.DelayedStep | src/rtos/thread.c:94-96 | after a pass, the delayed set has exactly the visited threads that expired removed |
| Rtos.TickFinished | src/rtos/thread.c:87 | when the work set is empty, the tick is complete |
| Rtos.TickSafeFromInv | src/rtos/thread.c:89-90 | under the invariant, with every delayed timeout non-zero, the tick's assertions cannot fail |
| Rtos.TickShape | src/rtos/thread.c:84-100 | a tick neither registers nor removes threads, nor changes priorities |
| Rtos.TickInvariant | src/rtos/thread.c:95-96 | a tick keeps the kernel invariant |
| Rtos.Park | src/rtos/thread.c:109-112 | the current thread's timeout is set, its ready bit cleared and its delayed bit set; nothing else changes |
| Rtos.ParkInv | src/rtos/thread.c:111-112 | parking keeps the kernel invariant |
| Rtos.ParkArmed | src/rtos/thread.c:110-112 | parking for a non-zero time keeps every delayed timeout non-zero |
| Rtos.ParkArmedAt | src/rtos/thread.c:110-112 | any delayed thread after a non-zero park is registered with a non-zero timeout |
| Rtos.Delay | src/rtos/thread.c:102-116 | the caller is delayed by `ticks` and not ready, then rescheduled with a switch request when the pick changes; the threads and both sets are exactly those of `Rtos.Park`, so no other thread or bit changes; the invariant holds |
| Rtos.DelayZeroTrips | src/rtos/thread.c:90 | after `delay(0)` the next tick's timeout assertion fails |
| Rtos.WakesAfterExactly | src/rtos/thread.c:84-116 | a thread delayed `n > 0` ticks stays delayed with `n - i` left through `n - 1` ticks and is ready after exactly `n` |
| Rtos.ThreadCreate | src/rtos/thread.c:118-171 | the registration of `Create` together with the stack layout of `Fabricate` at the saved sp |

## Left out

- The PendSV handler's assembly, the NVIC priority write and the ICSR pend write are raw register and stack-pointer manipulation. The switch is modelled as `current := next` (`Rtos.Switch`) and the pend write as the `switchPending` flag.
- Start-up code, the vector table, UART, GPIO, RCC and `systick_init` are memory-mapped I/O with no stateable logic. The UART's interrupt-side put duplicates `cbuf_put`.
- `rtos_on_startup` and `rtos_on_idle` only start the SysTick hardware and spin, so `Rtos.Run` is just its schedule.
- Debug printing is left out. A failing `DBC_REQUIRE` is a `requires`. A failing `DBC_ASSERT` in the tick is the predicate `Rtos.TickSafe`, and `Rtos.DelayZeroTrips` shows when it fails. `build_packet`'s size check on a handler reply is the `Halted` outcome of `SpacePacket.Process`.
- The thread bodies and registration loops in `src/main.c` are application wiring. Its small u8/u32 parameter handlers are represented by arbitrary handler functions.
- The header of `rtos_thread_create` declares a four-argument form that its callers use. The model follows the definition, which takes a priority and registers the thread at slot = priority.
- The frame buffer's spin lock, its `rtos_delay` waits and interrupt disabling exist for concurrency. The model has a single caller with the lock free on entry (`FrameBuffer.Valid`), and shows the lock free again on exit.
- The frame buffer's copy of its contents through a stack buffer is not modelled separately. The bytes moved are the same.
- Handlers are pure function values. Their effects on device state, for example a parameter setter storing a value, are not modelled.
- A handler that writes more than five output bytes would overrun `spacepacket_process`'s six-byte stack buffer. The model treats any reply of five or more bytes as `Halted`, which is the `build_packet` size check, and does not model the overrun itself.
- `SPACEPACKET_CONFIG_MIN_APID` and `MAX_APID` come from a configuration header that is not part of this model. They are the constants `MIN_APID = 0` and `MAX_APID = 255`, matching the 256-entry handler table and the ignored type-limits warning at src/app/spacepacket.c:101-102.
- The numbering of the status codes comes from a header that is not part of this model, and `StatusCodes.Code` is a model choice.
- SysTick.Rate: stated only for polls before the 32-bit tick counter wraps (`start + n + period < 2^32`).
- SysTick.ArmedExpiries: stated only for polls before the 32-bit tick counter wraps, starting from an armed timer no more than one period ahead.
- SpacePacket.Process: the packet size is below 2^32, the size of a 32-bit `size_t`. It uses the corrected header check and header bytes, so it differs from the code in two places: a count of 0 after 16383 is in sequence, where the code counts it; and the response header carries flags UNSEGMENTED (3), where the code's parses with flags 0. `SpacePacket.ProcessAsWritten` is the code as written, and `SpacePacket.ProcessAsWrittenAgrees` and `SpacePacket.ProcessAsWrittenResponse` show that these are the only differences.
- SpacePacket.RequestServed: about the corrected processor. Its response header parses with flags UNSEGMENTED, which the code's never does. `SpacePacket.RequestServedAsWritten` states the code's outcome, flags 0.
- FrameBuffer.WriteInner: uses the corrected circular-buffer write. The code (src/app/frame_buffer.c:71, through src/utils/cbuf.c:67) accepts a batch with `Size + |src| == 1024`, returns OK and sets `ready`, and the buffer then reads as empty. The model refuses that batch with BUFFER_OVERFLOW.
- FrameBuffer.ReadInner: uses the corrected circular-buffer write for the move. The code (src/app/frame_buffer.c:53) returns OK when `Size(dest) + Size(internal) == 1024`, leaving `dest` reading as empty. The model returns BUFFER_OVERFLOW and resets `dest`.
- FrameBuffer.Read: inherits the `FrameBuffer.ReadInner` difference at exactly 1024 bytes. Its error counting and last status are as the code does.
- FrameBuffer.Write: inherits the `FrameBuffer.WriteInner` difference at exactly 1024 bytes. Its error counting and last status are as the code does.
- Getters registered as telemetry points are closures over a fixed state. The model does not link a getter to the counters that `SpacePacket.Process` updates within the same request. `ApidMap.OutOfSeqCountServed` states the reply for whatever counters the getter sees.
- CircularBuffer.ReadAsWrittenAgrees: stated only for the non-wrapped case and the wrapped case where the code's index arithmetic is sound. `CircularBuffer.ReadUnderflows` shows the other case.

## Findings

| source | as written | input that shows it | evidently intended | confidence | as-written member | corrected member |
|---|---|---|---|---|---|---|
| src/utils/cbuf.c:56-59 | in a wrapped buffer, a read shorter than the bytes left before the end still copies all of them and then sets `read = size - temp_size`, which underflows | `read = 1000`, `write = 10`, a read of 5 bytes | copy `size` bytes, splitting at the end only when needed, and advance `read` by `size` modulo 1024 | high, not executed | CircularBuffer.ReadAsWritten, CircularBuffer.ReadUnderflows | CircularBuffer.Read |
| src/utils/cbuf.c:67 | a write is accepted when it exactly fills the 1024 slots, after which `write == read` and the buffer reads as empty | an empty buffer and 1024 bytes | accept only what leaves one slot free, the same capacity of 1023 as `cbuf_put` | high, not executed | CircularBuffer.WriteAsWritten, CircularBuffer.WriteFillsToEmpty | CircularBuffer.Write |
| src/app/spacepacket.c:39-40 | byte 2 is assigned twice with `=`, so the sequence flags are overwritten by the high count bits | a response header with flags UNSEGMENTED (3) parses back with flags 0 | `|=` on line 40, so the flags occupy the top two bits | high, not executed | SpacePacket.HeaderBytesAsWritten, SpacePacket.BuildPacketAsWritten, SpacePacket.ParseHeaderBytesAsWritten, SpacePacket.UnsegmentedFlagsLost, SpacePacket.ProcessAsWritten, SpacePacket.RequestServedAsWritten | SpacePacket.HeaderBytes, SpacePacket.BuildPacket, SpacePacket.ParseHeaderBytes |
| src/app/kiss_frame.c:55 | the escape flag is a local variable reset on every call, while the output count persists across calls | a frame whose FESC is the last byte available in one call and whose TFEND arrives in the next decodes TFEND literally | keep the escape state across calls, as the output count is kept | medium, not executed | KissFrame.Unpack, KissFrame.EscapeLostBetweenCalls | KissFrame.UnpackResumable, KissFrame.DecodeResumes |
| src/app/spacepacket.c:257 | the last-sequence-count getter encodes `csum_error_count` | last count 7 and 2 checksum errors report 2 | encode `last_seq_count_recv` | high, not executed | SpacePacket.LastSeqCountAsWritten, SpacePacket.LastSeqCountMisreported | SpacePacket.LastSeqCount |
| src/app/frame_buffer.c:143-151 | the write-last-status getter reports the last read status | a 1025-byte write on a fresh frame buffer is refused, yet the getter reports OK | report the last write status | high, not executed | FrameBuffer.WriteLastStatusAsWritten, FrameBuffer.WriteFailureHidden | FrameBuffer.WriteLastStatus |
| src/app/spacepacket.c:114 | the expected sequence count is `last + 1` without wrapping, but the count is a 14-bit field (CCSDS 133.0-B-2, section 4.1.3) | count 0 after count 16383 is counted out of sequence | expect `(last + 1) mod 2^14` | medium, not executed | SpacePacket.ValidateHdrAsWritten, SpacePacket.SequenceWrapCountedAsWritten, SpacePacket.ProcessAsWritten | SpacePacket.ValidateHdr |
