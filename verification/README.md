# anymodbus: a verified model

anymodbus is a Modbus serial client with a matching mock server, in RTU and ASCII
framing. This project models its four connected cores and proves what they are for:

* the **bus** (`Bus.dfy`, `Timing.dfy`, `Replies.dfy`, `Callers.dfy`): a half-duplex
  master as a state machine in time. A call takes the line, waits out the late-reply
  window of earlier attempts (dropping what arrives), holds the idle gap, sends, reads,
  and retries. Its history of attempts is an invariant of the class, kept however an
  attempt ends - reply, exception, timeout, damage, cancellation or port failure.
  `LateReplies.dfy` proves over whole histories that no late byte is taken for the answer
  to a newer request, and exactly which configurations give that; `Callers.dfy` adds the
  callers that queue for the lock;
* **framing over a chunked stream** (`Line.dfy`, `RtuFramer.dfy`, `RtuRequests.dfy`,
  `AsciiFramer.dfy`, `Framing.dfy`): readers that give the result of one pure parse
  however the bytes are split, consume exactly one frame, and resynchronise after damage;
* the **checksums** (`Crc.dfy`, `CrcPreset.dfy`, `DoubleErrors.dfy`, `Lrc.dfy`): the CRC table against
  bitwise polynomial division, and error detection at every frame length (sections 2.5.1.2
  and 6.2 of MODBUS over Serial Line V1.02);
* the **PDU codec and register banks** (`Pdu.dfy`, `PduProofs.dfy`, `Coils.dfy`,
  `RegisterBanks.dfy`, `MockSlave.dfy`, `MockServer.dfy`, `Client.dfy`, `Decoders.dfy`):
  encoders and decoders as exact inverses, and packed banks changed in place that
  refine plain arrays (sections 6.1 to 6.12 of MODBUS Application Protocol V1.1b3).
  `EndToEnd.dfy` composes client and server: every run of calls reads and writes
  plain arrays, where a read returns what the last accepted write put there
  (`LastWrites.dfy`). `LossyLine.dfy` says what is left of that when frames are lost or
  late, and `DamagedReplies.dfy` and `AsciiRecovery.dfy` when they are damaged;
* an **independent reference in bytes and numbers** (`WireFormat.dfy`, `ServedRequests.dfy`,
  `FaultPlans.dfy`): what every request, reply, exception and frame looks like, where each
  frame ends, and what a slave does to which bank, written out without the constants and
  functions of the model, and proved equal to it. So a round trip between encoder and
  decoder cannot hide that both are wrong.

## How time and the line are modelled

`Line.ByteStream` is one end of a line. What will reach this end, and when, is fixed
but unknown (`incoming`, `arrivesAt`), so a proof covers every schedule. A wait may
deliver any non-empty part of what has arrived, may overrun the moment that ends it by
up to `lag`, and may be cancelled or broken off. `reach` records how far a reader was
ever allowed to look. `Waited` and `NotThere` say when a read may time out: not before its
deadline, not much later, and not when the bytes it waits for were there in time; every
reader promises that, and it is carried up to the call (`Replies.InTime`). In RTU a reply may
stand behind frames for other slaves; where silences separate them, it is read all the same
(`Replies.BehindStrayBursts`).

`Buses.Bus.Valid` says what every run keeps: `Timing.Orderly` (each attempt's moments are
in order and it follows every earlier one), one report per attempt with increasing ids and
numbers, sends equal to the reported ones, and one whole frame read for each answer.

The bus holds its lock for a whole call, so what a call does while it holds it is one
method (`RunAdmitted`, `RunBroadcast`), broken off wherever a wait is. What happens before
the lock is another (`Admit`): the closed test is made there and not again. `Callers` is the
state machine of any number of callers - arriving, waiting, sending, reporting, pausing,
giving up - interleaved in any order with the closing of the bus. `Callers.GuestsFirst` shows
that callers who come, give up or close the bus during a call might as well have done so
before it, and `Callers.Drive` that the bus, under any schedule of that form, follows it.

`LateReplies.TimelyReplies` is the assumption about slaves: a request causes at most one
reply, after it was sent and no later than a bound after an uncertain attempt ended. Bytes
taken before the bus began, and with a reset before requests those there by its first
attempt, need no cause. That an answer made of an attempt's own bytes leaves none of them
behind is part of it, and follows from framing when replies are whole frames
(`AnsweredWholeByFraming`). How late a reply may be is `LateReplies.Tolerates`. Where the
input is reset before requests, nothing is left of what came by then, and that is after the
idle gap and after the window and a silence, or the cap (`BusConfig.ResetReach`). Otherwise the
discard of a window has to read it: a reply within the window or the silence that also comes
more than the lag before the cap (`BusConfig.Discards`). `SafeExactly` says that this is
exactly what makes a configuration safe, whatever its timeouts.

`EndToEnd.Converse` runs a client and a server, each on its own end. Because what reaches an
end is fixed in advance, the two ends meet in the condition `LossFree`: what one received is
what the other sent, each reply after its request and in time for its reader, and no port
failed and no call was cancelled.

## Where the code and its documentation differ

* `interpret_response_pdu` reads a second byte of an exception PDU (src/anymodbus/framing.py:149).
  The RTU tables guarantee it (`Client.RtuExceptionLength`); the ASCII reader does not, so a
  one-byte exception PDU escapes as an IndexError (`Unhandled` here) although every failure is
  documented to be a ModbusError (src/anymodbus/exceptions.py:24). `Client.BareExceptionEscapes`
  gives the input and `Client.UnhandledExactly` the exact condition.
* A wrong CRC is documented to drain the line to the next idle gap, so that the next read starts
  at a frame boundary (src/anymodbus/framer.py:392-395). After a request whose function code has
  no table length the reader has already read to that gap and drains for a second one
  (src/anymodbus/framer.py:414-419), so a sound frame that begins within two gaps is lost.
  `RtuRequests.SoundFrameLost` gives the input, with the default gap of the mock server, and
  `RtuRequests.ResynchronisesIffTwoGaps` the exact condition.
* `estimate_late_reply_window` takes an attempt never to end before its request was sent
  (src/anymodbus/config.py:113-118). A send cancelled midway does. So does a call cancelled after
  its send returned, where the output is not drained (src/anymodbus/bus.py:620-629): the request is
  then recorded as sent (src/anymodbus/bus.py:689) while it is still leaving the adapter.
  `CutOffSendOutlivesEstimate` gives a history of either kind in which the reply outlives the
  estimate. `EstimateIsSafe` holds when every uncertain attempt lasted until its request was out;
  otherwise the window has to cover the estimate and the draining (`DrainingIsSafe`).
* A refused ASCII request is documented to have been consumed up to its line end
  (src/anymodbus/framer_ascii.py:190-194); reading stops at the first character that does not fit
  (src/anymodbus/framer_ascii.py:117-126). `AsciiRecovery.RefusedEarly` gives the input and
  `AsciiRecovery.RefusedAtLineEndIff` the exact condition. What is left of the frame does no harm:
  after one wrong character the next frame is always read (`NextFrameSurvives`), and
  `NextFrameSurvivesIff` says exactly which remains of a frame swallow the next one's colon.
* The retry policy is documented for FC 1-4 (src/anymodbus/config.py:169-173); the code also
  retries FC 8 (src/anymodbus/_types.py:56), as `Buses.DefaultPolicyRetries` states.
* A cancelled pause between attempts leaves a report that promised a retry
  (src/anymodbus/bus.py:470); `Buses.CallEnds` says so.
* The closed test is made before the lock (src/anymodbus/bus.py:405, 478): a caller that was
  already waiting when the bus was closed still makes an attempt, and reports it.
  `Callers.ClosedStartsNothing` says exactly when a closed bus starts nothing.

## Model

| member | source | states |
|---|---|---|
| `Crc.BuildTable` | src/anymodbus/crc.py:25-32 | every table entry is the eight single-bit division steps of its index |
| `Crc.Crc16Modbus` | src/anymodbus/crc.py:38-51 | the table-driven loop gives the remainder of bit-by-bit polynomial division, for every byte string; polynomial and preset are pinned by the rows of `CrcPreset` |
| `Crc.LookupIsDivision` | src/anymodbus/crc.py:43-51 | one table lookup collapses eight division steps, for every register and byte |
| `Crc.CrcBytes` | src/anymodbus/crc.py:54-61 | the two check bytes spell the remainder low byte first |
| `Crc.ResidueIffCrcBytes` | src/anymodbus/crc.py:64-75 | a frame has remainder zero if and only if its last two bytes are the recomputed check bytes |
| `CrcPreset.PresetInverts` | src/anymodbus/crc.py:20-51 | the check of a message is its remainder with ones added into its first sixteen bits |
| `CrcPreset.LeadingZerosUndetectedIff` | src/anymodbus/crc.py:20-75 | so n bytes of zero put in front of a frame pass the check if and only if n is a multiple of 32767 |
| `CrcPreset.OrderOfPreset` | src/anymodbus/crc.py:19-20 | because the register comes back to the preset, a power of x + 1, exactly after multiples of 32767 steps |
| `CrcPreset.KnownCheck` | tests/unit/test_crc.py:18-19 | the worked example of the specification |
| `CrcPreset.KnownFrame` | src/anymodbus/crc.py:19-61 | the check of a read of one register, in numbers |
| `Crc.UndetectedIffDivisible` | src/anymodbus/crc.py:64-75 | a damaged frame still verifies if and only if the pattern of flipped bits is itself divisible |
| `Crc.BurstDetected` | src/anymodbus/crc.py:64-75 | any non-empty damage within 16 consecutive bits is detected, at every frame length |
| `Crc.OddErrorDetected` | src/anymodbus/crc.py:64-75 | any odd number of flipped bits is detected, at every frame length |
| `Crc.ByteChangeDetected` | src/anymodbus/crc.py:64-75 | any change to one byte is detected |
| `DoubleErrors.OrderOfX` | src/anymodbus/crc.py:25-32 | a single bit fed into the register comes back to itself exactly after a multiple of 32767 steps |
| `DoubleErrors.TwoFlipsUndetectedIff` | src/anymodbus/crc.py:64-75 | two flipped bits pass the check exactly when they are a multiple of 32767 bits apart, at every frame length |
| `DoubleErrors.TwoFlipsDetected` | src/anymodbus/crc.py:64-75 | so any two flipped bits are detected in every frame of up to 4095 bytes, which with odd errors covers every error of up to three bits |
| `Lrc.ZeroSumIffLrc` | src/anymodbus/lrc.py:23-51 | the sum test accepts exactly the recomputed check byte |
| `Lrc.OneByteChangeDetected` | src/anymodbus/lrc.py:41-51 | any change to one byte, the check byte included, is detected |
| `WireFormat.KnownLrc` | tests/unit/test_lrc.py:18-22 | the LRC of a read of one input register, in numbers |
| `Coils.BitsOfSetCoil` | src/anymodbus/_mock/slave.py:365-369 | switching a packed coil changes exactly one logical coil |
| `Coils.PackBitsInPlace` | src/anymodbus/pdu.py:99-110 | the byte-array loop packs any number of bits: the bits in order, zero-padded |
| `Coils.BitsOfPacked` | src/anymodbus/pdu.py:99-110 | the packed bytes carry the given bits in order and then only zeros |
| `Coils.UnpackPack` | src/anymodbus/pdu.py:99-119 | unpacking undoes packing, for any number of bits |
| `Coils.PackUnpack` | src/anymodbus/pdu.py:99-119 | packing undoes unpacking exactly when the padding bits are zero |
| `PduProofs.EncodesExactlyLegalCalls` | src/anymodbus/pdu.py:81-213 | a request encodes if and only if its address, quantity and values are within the specification |
| `WireFormat.RequestSentIff` | src/anymodbus/pdu.py:145-213 | every call is sent as the bytes of the specification and no others - function codes, big-endian fields, FF00 for on, one bit to a coil from the lowest up, zero padding - and only within the numeric ranges |
| `WireFormat.RequestReadIff` | src/anymodbus/pdu.py:477-590 | a request PDU is read as a call if and only if it is those bytes, whatever its coil padding; anything else is a protocol error |
| `WireFormat.ReplySentIff` | src/anymodbus/pdu.py:593-653 | every reply is sent as the bytes of the specification and no others |
| `WireFormat.AnswerTakenIff` | src/anymodbus/pdu.py:222-425 | a reply PDU is taken for the answer to a call if and only if it is the requested count of items, bit for bit and word for word, or the exact echo; a reply of the right kind that answers something else is told apart from a malformed one |
| `WireFormat.ExceptionSent` | src/anymodbus/pdu.py:656-673 | an exception is the function code plus 128 and the exception code |
| `WireFormat.ReplyJudged` | src/anymodbus/framing.py:115-156 | exactly which first bytes make a reply, an exception, a protocol error and an answer to something else |
| `PduProofs.DecodeEncodeRequest` | src/anymodbus/pdu.py:145-213 | every legal request decodes back to itself, for every function code; what its bytes are is `WireFormat.RequestSentIff` |
| `PduProofs.EncodeDecodeRequest` | src/anymodbus/pdu.py:477-590 | every accepted request is legal and encodes back to itself; for coils exactly when the padding bits are zero |
| `Pdu.DecodeWriteMultiple` | src/anymodbus/pdu.py:530-557 | an accepted quantity is in range and agrees with the byte count and the length |
| `PduProofs.DecodeEncodeReply` | src/anymodbus/pdu.py:593-653 | a reply that answers a call encodes, and the call decodes it to exactly what it carries |
| `PduProofs.AcceptedReplyAnswers` | src/anymodbus/pdu.py:222-379 | whatever reply a call accepts carries the requested count, or echoes its address and value or quantity, and the returned value is that body |
| `Line.ByteStream.Receive` | src/anymodbus/framer.py:179-209 | a wait delivers a non-empty part of what has arrived, soon after it has; or it expires, never before its deadline nor long after it, and with nothing there to read; or it is broken off |
| `Line.ByteStream.ResetInput` | src/anymodbus/stream.py:48-62 | drops everything that had arrived and nothing that is still to come |
| `RtuFramer.ReadExact` | src/anymodbus/framer.py:179-209 | exactly the next n bytes however they are split, never asking for more; an early end of stream is a frame error; a passed deadline is reported only at or after the deadline, soon after it, and never when the n bytes were there in time |
| `RtuFramer.ReadUntilIdle` | src/anymodbus/framer.py:212-260 | ends at its cap, the end of the stream or a silence; inside a burst that fits, it reads to the end of the burst and no further; it times out for want of the next byte and is done by the time the next one is there |
| `RtuFramer.FindHead` | src/anymodbus/framer.py:294-309 | skips only segments that start with another address, each read up to a silence, the read cap or the end of the stream, and whole where it is one burst that fits; broken off, it is in front of our head or inside such a burst |
| `RtuFramer.ReadTail` | src/anymodbus/framer.py:311-361 | once the head is read, the outcome and the bytes consumed are those of one parse of everything from the head; it times out only when the deadline has passed and the next byte was not there in time, inside the frame if its length is known |
| `RtuFramer.ReadRawAdu` | src/anymodbus/framer.py:263-361 | for every split into receives the result is that of one pure parse of the bytes behind the stray frames, exactly the frame is consumed and nothing past it requested; accepted frames are addressed to the expected slave with a correct CRC; a function code without a length is judged on its whole burst; stray bursts are taken whole; it never times out early, nor while the next byte is there in time |
| `WireFormat.RtuFrameIff` | src/anymodbus/framer.py:146-170 | an RTU frame is the address, the PDU and the check, low byte first, and nothing else |
| `WireFormat.ReplyCutOut` | src/anymodbus/framer.py:68-143 | where a reply frame ends and how it is judged, by function code and byte count in numbers |
| `WireFormat.RequestCutOut` | src/anymodbus/framer.py:102-143 | the same for request frames |
| `WireFormat.BurstJudgement` | src/anymodbus/framer.py:347-361 | and for a burst whose function code has no length |
| `RtuRequests.DrainUntilIdle` | src/anymodbus/framer.py:364-377 | drains to the end of the current burst and takes nothing of the next |
| `RtuRequests.ReadUnknownRequest` | src/anymodbus/framer.py:413-424 | a request without a table length is judged on its whole burst; on a wrong CRC nothing after it is taken if two silent gaps follow, or one when the burst fills the reader, and bytes that begin within two gaps are lost with it otherwise |
| `RtuRequests.ReadRawRequestAdu` | src/anymodbus/framer.py:380-424 | agrees with one parse by the request tables; a frame of known length that is rejected takes its whole burst with it and nothing of the next frame after one silent gap; a function code without a length needs two gaps |
| `RtuRequests.ResynchronisesIffTwoGaps` | src/anymodbus/framer.py:413-421 | on a line without lag, the frame after a burst without a length survives if and only if the burst is too short to be judged, or its CRC is right, or it fills the reader, or the next frame begins more than two gaps later |
| `RtuRequests.SoundFrameLost` | src/anymodbus/_mock/server.py:118-134 | a write damaged from FC 06 to 07 at 19200 baud, with the mock server's gap of 2 ms: the sound frame 3.5 characters behind it is lost, however the line is read |
| `AsciiFramer.HexRoundTrip` | src/anymodbus/framer_ascii.py:49-69 | the hexadecimal digits of any bytes read back as those bytes |
| `WireFormat.AsciiFrameSent` | src/anymodbus/framer_ascii.py:49-69 | an ASCII frame is a colon, two digits for each byte with the high half first, and carriage return and line feed; the last byte brings the sum to a multiple of 256 |
| `WireFormat.HexIsUpper` | src/anymodbus/framer_ascii.py:69 | every digit sent is 0-9 or A-F |
| `WireFormat.AsciiCap` | src/anymodbus/framer_ascii.py:41-43 | the 511th digit of a frame is refused where it stands |
| `WireFormat.AsciiTooShort` | src/anymodbus/framer_ascii.py:132-137 | a frame of fewer than three bytes is refused |
| `AsciiFramer.ParseWrapped` | src/anymodbus/framer_ascii.py:86-138 | a wrapped frame of 3 to 255 raw bytes reads back whatever precedes its colon and follows its line end; the 510-digit cap never trips on it |
| `AsciiFramer.ReadAsciiFrame` | src/anymodbus/framer_ascii.py:86-138 | agrees with one parse of the remaining input and consumes exactly what that parse used, also on malformed frames; it times out only inside an unfinished frame, when the deadline has passed and the next byte was not there in time |
| `AsciiFramer.ReadAsciiAdu` | src/anymodbus/framer_ascii.py:151-180 | skips frames for other slaves and otherwise gives the outcome of one parse, consuming exactly that; it times out only before that parse is decided, when the deadline has passed and the next byte was not there in time |
| `AsciiFramer.ReadAsciiRequest` | src/anymodbus/framer_ascii.py:182-202 | reads one frame for any address, as one parse of the remaining input says |
| `AsciiFramer.ReadBackAscii` | src/anymodbus/framer_ascii.py:49-69 | what either end encodes, both ends read back, the rest of the line untouched |
| `AsciiFramer.StraySkipped` | src/anymodbus/framer_ascii.py:167-178 | a well-formed frame for another slave is skipped, whether or not its LRC is right |
| `AsciiFramer.StraysSkipped` | src/anymodbus/framer_ascii.py:167-178 | any list of frames for other slaves is skipped and our frame behind them is read |
| `AsciiFramer.ChangedByteRefused` | src/anymodbus/framer_ascii.py:167-180 | one changed raw byte of our frame, the address excepted, is an LRC error |
| `AsciiFramer.AcceptedReplyIsFrame` | src/anymodbus/framer_ascii.py:151-180 | an accepted reply is the last frame read, addressed to us, with a correct LRC |
| `AsciiRecovery.NextFrameSurvivesIff` | src/anymodbus/framer_ascii.py:104-138 | whatever stands between a colon and the next frame, that frame is read next if and only if what stands there is not all digits (up to a final carriage return) within the cap; otherwise its colon is taken and the frame is lost |
| `AsciiRecovery.NextFrameSurvives` | src/anymodbus/framer_ascii.py:104-138 | one wrong character anywhere in a frame never costs the next one: the damaged frame is not noticed, or reading it stops within it, and the next frame is read |
| `AsciiRecovery.WrongCharacterNoticed` | src/anymodbus/framer_ascii.py:104-138 | a frame with one wrong character that is still whole has a wrong LRC, or is the same digit in the other case |
| `AsciiRecovery.WrongRequestCharacter` | src/anymodbus/framer_ascii.py:182-202 | for the server: a request with one wrong character is refused, or not noticed, or reads as it was sent, and the next request is read |
| `AsciiRecovery.WrongReplyCharacter` | src/anymodbus/framer_ascii.py:151-180 | for the client: the same, where a reply with a wrong address or colon is passed over |
| `AsciiRecovery.RefusedAtLineEndIff` | src/anymodbus/framer_ascii.py:190-194 | a frame refused before its LRC is judged has been consumed up to a line end if and only if its body was whole |
| `AsciiRecovery.RefusedEarly` | src/anymodbus/framer_ascii.py:121-123 | an input that is refused at its third character, whatever follows |
| `Framing.LegalRequestsFit` | src/anymodbus/framer.py:102-133 | every legal request has the length the request tables compute from its first bytes, at most 253 |
| `Framing.LegalRepliesFit` | src/anymodbus/framer.py:68-100 | every legal reply has the length the reply tables compute from its first bytes, at most 253 |
| `Framing.ReadBackRequest` | src/anymodbus/framer.py:380-424 | an encoded request is parsed as itself, whatever follows |
| `Framing.ReadBackReply` | src/anymodbus/framer.py:263-361 | an encoded reply or exception is parsed as itself, whatever follows |
| `Framing.ReadBackRequests` | src/anymodbus/framing.py:78-93 | any concatenation of encoded requests reads back as the same list of addresses and PDUs, in both framings |
| `Framing.ReadBackReplies` | src/anymodbus/framing.py:51-76 | any concatenation of the replies and exceptions one slave encodes reads back as the same list, in both framings |
| `Framing.DamagedFunctionCode` | src/anymodbus/framer.py:332-354 | a reply whose function code alone is damaged into one without a length is a CRC error once its burst is read |
| `DamagedReplies.CutOutExactly` | src/anymodbus/framer.py:311-361 | a reply changed anywhere but in the bytes that give its length is still cut out exactly, and accepted if and only if its CRC is right |
| `DamagedReplies.DamageRefused` | src/anymodbus/framer.py:311-361 | so a burst of up to 16 bits, an odd number of flipped bits or any two, outside the function code and the byte count, makes the parse of the frame a CRC error of exactly its length, whatever follows it; with the address byte spared too, the frame is still addressed to us, and otherwise a reader takes it for a stray |
| `DamagedReplies.DamageConcludes` | src/anymodbus/bus.py:692-715 | an attempt whose reply arrives so damaged ends with a CRC error and consumes exactly that frame, unless it was cut short or the frame was not there in time |
| `Replies.CarriedReplyIsRead` | src/anymodbus/framing.py:51-76 | a reply frame that is on the line from the first byte read is what the read gives, consuming exactly it, in both framings, unless the read is broken off |
| `Replies.CertainReadsFrame` | src/anymodbus/bus.py:692-715 | a value or a slave's refusal comes from one whole frame of that slave, interpreted and decoded |
| `Replies.CarriedReplyConcludes` | src/anymodbus/bus.py:692-715 | an attempt whose reply frame is on the line returns what that frame means and consumes exactly it, unless the port failed, it was cancelled, or it read for its whole request timeout and the last byte of the frame was not there by then, apart from the lag |
| `Replies.BehindStrayBursts` | src/anymodbus/framer.py:294-361 | in RTU the same for a reply frame behind any number of frames for other slaves, each one burst of up to 256 bytes with a silence after it: it is what the attempt returns and is consumed exactly, unless it was cut short or its last byte was not there in time |
| `RegisterBanks.ReplyTo` | src/anymodbus/_mock/slave.py:348-404 | the reply to an accepted request answers it: same table and count, or the exact echo |
| `ServedRequests.RequestServed` | src/anymodbus/_mock/slave.py:303-404 | in bytes, and on each bank by name: which requests are refused with exception 2 or 3, which bank each function code reads, what each write leaves, and the reply |
| `ServedRequests.RequestRefused` | src/anymodbus/_mock/server.py:152-169 | every other request changes nothing: exception 1 for a disabled or unknown function code or sub-function, exception 3 for a malformed one, silence for function code 0 |
| `ServedRequests.WriteThenRead` | src/anymodbus/_mock/slave.py:303-404 | after an accepted write a read of the same cells sends back what was written, for all four writes |
| `ServedRequests.AddressedSlaves` | src/anymodbus/_mock/server.py:136-149 | address 0 reaches every slave and is not answered; any other reaches the slave of that address alone |
| `RegisterBanks.WritesExactlyTheSlice` | src/anymodbus/_mock/slave.py:371-404 | after an accepted request exactly the addressed coils and registers hold the written values |
| `RegisterBanks.BanksKept` | src/anymodbus/_mock/slave.py:303-404 | a refused request, a read and a loopback change nothing; no request changes a bank size, the discrete inputs or the input registers |
| `RegisterBanks.ResponseFits` | src/anymodbus/_mock/server.py:152-169 | every response PDU, exceptions included, fits the reply tables and names the function code asked for |
| `RegisterBanks.EachSlaveIsItsOwnFold` | src/anymodbus/_mock/server.py:136-149 | a slave ends as the fold of the requests addressed to it or broadcast, in order, whatever the others were sent |
| `RegisterBanks.PaddingKept` | src/anymodbus/_mock/slave.py:365-394 | over any run of requests no bit past the last coil changes |
| `MockSlaves.MockSlave.constructor` | src/anymodbus/_mock/slave.py:155-215 | a new slave holds zeros, in the padding of its coil bytes too |
| `MockSlaves.MockSlave.ReadBits` | src/anymodbus/_mock/slave.py:348-356 | reads the slice of the packed bank, or refuses by quantity first and address second |
| `MockSlaves.MockSlave.SetCoilAt` | src/anymodbus/_mock/slave.py:365-369 | one logical coil changes, every other bit of the bank stays |
| `MockSlaves.MockSlave.SetCoils` | src/anymodbus/_mock/slave.py:392-394 | the coil loop overwrites exactly the slice, padding bits untouched |
| `MockSlaves.MockSlave.HandleWriteMultipleCoils` | src/anymodbus/_mock/slave.py:385-394 | the in-place handler does to the packed bank what the request means on a plain boolean array |
| `MockSlaves.MockSlave.HandleWriteMultipleRegisters` | src/anymodbus/_mock/slave.py:396-404 | the slice assignment does to the registers what the request means on a plain array |
| `MockSlaves.MockSlave.HandleRead` | src/anymodbus/_mock/slave.py:307-346 | reads and the loopback answer from the banks and leave them alone |
| `MockSlaves.MockSlave.HandleRequest` | src/anymodbus/_mock/slave.py:303-337 | every request PDU gets the answer, and leaves the banks, that its meaning on plain arrays gives; padding bits never change |
| `MockSlaves.MockSlave.SendResponse` | src/anymodbus/_mock/slave.py:259-295 | the response counts whether it is sent or not; what goes out is the frame the fault plan leaves of it, and not before its delay |
| `MockSlaves.CorruptedRefused` | src/anymodbus/_mock/slave.py:280-295 | a deliberately corrupted response is a checksum error at the client, in both framings |
| `FaultPlans.FaultsHit` | src/anymodbus/_mock/slave.py:259-295 | a response is dropped or corrupted exactly when the plan names its index; corruption flips one bit of the checksum and nothing else, and a wrong address is framed as one |
| `FaultPlans.SilentExactly` | src/anymodbus/_mock/faults.py:23-27 | over any run a slave answers each request sent to it alone, but for function code 0 and the one response its plan drops, counted from 0 among those it answers |
| `MockServers.MockServer.Add` | src/anymodbus/_mock/server.py:97-113 | served if and only if the address is free and the framing agrees |
| `MockServers.MockServer.ApplyToAll` | src/anymodbus/_mock/server.py:139-143 | a broadcast is applied by every slave, whatever the order |
| `MockServers.MockServer.Answer` | src/anymodbus/_mock/server.py:136-149 | one request steps exactly the slaves it concerns and sends exactly their reply frame |
| `MockServers.ResponsePdu` | src/anymodbus/_mock/server.py:152-169 | a refusal becomes the matching exception response; function code 0 gets none |
| `MockServers.MockServer.Serve` | src/anymodbus/_mock/server.py:115-134 | after any run every slave holds the fold of the requests served, padding bits included, the frames sent are theirs in order, on an undamaged line the requests served are those sent, and no damaged request ends the serving |
| `EndToEnd.CallIsPlain` | src/anymodbus/slave.py:161-279 | if the frame the server answers a call with is what its last attempt finds on the line, what `Client.Slave.Request` returns is the plain array read or write on that slave, or the matching exception, and exactly the frame is consumed - unless the port failed or the call was cancelled, or it timed out after its whole request timeout with the frame not there in time; no other slave changes |
| `EndToEnd.CallBehindStrays` | src/anymodbus/framer.py:294-309 | the same in RTU when the frame stands behind any number of stray bursts |
| `EndToEnd.RunIsPlain` | src/anymodbus/slave.py:161-279 | every run of calls over a line that carries the server's frames, each after its request and complete before the request timeout of its reader is over (less the lag), returns the answers, and leaves the banks, of plain arrays read and written in that order, in either framing and with retries, provided no result is a port failure or a cancellation |
| `LastWrites.AnswerMeans` | src/anymodbus/_mock/slave.py:303-404 | the plain answer to every call, bank by bank and with its exception code |
| `LastWrites.ReadsReturnLastWrites` | src/anymodbus/slave.py:161-279 | so every read of coils or holding registers in a run returns, cell by cell, what the last accepted write before it put there, or the first contents |
| `LastWrites.CellsHoldLastWrites` | src/anymodbus/_mock/slave.py:348-404 | every coil and holding register ends as the last accepted write of the run left it, and the other two banks never change |
| `LastWrites.WriteThenRead` | src/anymodbus/slave.py:161-279 | an accepted write is read back, exactly when the read is allowed |
| `EndToEnd.BanksArePlain` | src/anymodbus/_mock/server.py:136-149 | the server's side of a run: plain arrays, and one frame for each call |
| `EndToEnd.MakeCalls` | src/anymodbus/slave.py:161-279 | a caller that makes one call after another through slave handles: each ran as `Request` promises, each reads after the one before it |
| `EndToEnd.OneSendPerCall` | src/anymodbus/bus.py:685-687 | every call of a run sends its frame, so as many sends as calls are exactly the request frames in order |
| `EndToEnd.Converse` | src/anymodbus/_mock/server.py:115-134 | a client making calls and a server serving them, over a line that loses nothing and delivers each reply in time, with no port failure and no cancellation: the results are the plain answers and the slaves hold the plain banks |
| `EndToEnd.CallsAreFramable` | src/anymodbus/_mock/server.py:115-134 | the frames of any list of legal calls, one after another, are a line a server reads completely |
| `LossyLine.LossyCallIsPlain` | src/anymodbus/bus.py:424-474 | over a line that may lose frames either way and hold them up for as long as the configuration tolerates, whatever answer or refusal a call returns is the plain one of the server's arrays at the moment when the request sent by its last attempt, and no other, was served |
| `LossyLine.LossyRunIsPlain` | src/anymodbus/slave.py:161-279 | the same for every call of a run of calls: each served request is the one sent by the last attempt of that very call |
| `LossyLine.MomentsInOrder` | src/anymodbus/bus.py:424-474 | if the server reads requests in the order they were sent, the moments at which the calls of a run are answered are in the order of the calls |
| `Buses.Bus.DiscardLateBytes` | src/anymodbus/bus.py:565-601 | returns by its cap; either the window is over and the line was silent for the inter-frame gap, of 1.75 ms at least, and it ends with that and no later; or the cap was reached and the warning raised, exactly when that silence would go beyond the cap |
| `Timing.BusConfig.SilenceIsGap` | src/anymodbus/bus.py:80 | that silence is the inter-frame gap itself when it is 1.75 ms or more, and 1.75 ms otherwise |
| `Buses.Bus.WaitOutWindow` | src/anymodbus/bus.py:559-561 | a discard that returns closes the window, which is then over; one that fails leaves it in force; only bytes that come long after the window keep it busy to its cap |
| `Buses.Bus.AwaitInterFrameGap` | src/anymodbus/bus.py:603-618 | the gap since the last I/O is held; the startup settle applies once, before the first frame |
| `Buses.Bus.AwaitLineIdle` | src/anymodbus/bus.py:550-563 | when it returns no window is pending and the gap is held; when it fails, a window is dropped only once waited out |
| `Buses.Bus.PrepareLine` | src/anymodbus/bus.py:673-677 | when a frame may go out, what earlier attempts left is behind it; a discard can be capped only by bytes later than every earlier window |
| `Buses.Bus.MaybeResetInput` | src/anymodbus/bus.py:631-634 | after a reset nothing that had arrived before it is left to read |
| `Buses.Bus.AwaitReply` | src/anymodbus/bus.py:687-715 | reading begins no sooner than the settling delay after the request was out, or not at all, and ends by the request timeout after that, apart from the lag; what was taken from then on is what the read gives |
| `Buses.Bus.ReadReply` | src/anymodbus/bus.py:692-715 | requires the settling delay to be over; the result is what one parse of the bytes taken means, or the read was broken off; it ends by the request timeout, and is a timeout only once that has passed and the reply was not there in time |
| `Buses.Bus.OneTxn` | src/anymodbus/bus.py:663-723 | an attempt keeps the order of the history however it ends and sends its frame at most once; its result is what one parse of the bytes it read means to the decoder, or a translated port failure, a cancellation, or a timeout after reading for the whole request timeout with no reply there in time |
| `Buses.Bus.Translate` | src/anymodbus/bus.py:647-661 | port failures become the library's own errors, and a closed port closes the bus |
| `Replies.FaultsTranslated` | src/anymodbus/bus.py:647-664 | exactly which failures of the port become which error |
| `Replies.ConclusionMeans` | src/anymodbus/bus.py:690-726 | what an attempt reports for every way its reading can end |
| `Buses.Bus.StampEnd` | src/anymodbus/bus.py:636-645 | the gap of the next frame runs from the end of the attempt |
| `Buses.Bus.SendBroadcast` | src/anymodbus/bus.py:725-752 | a broadcast that succeeds has held its turnaround; it reads nothing |
| `Buses.Bus.FinishAttempt` | src/anymodbus/bus.py:754-801 | a window opens exactly after an uncertain unicast attempt and never shortens a pending one; each attempt is reported once and the history stays orderly |
| `Buses.Bus.RetryLoop` | src/anymodbus/bus.py:425-474 | the reports of a call share its id, are numbered from 1, promise a retry exactly where one follows or the pause before it was cancelled, and each retry waits for the gap and the backoff |
| `Buses.Bus.Admit` | src/anymodbus/bus.py:405-422 | before the lock: a closed bus, the broadcast address, and what cannot be framed are refused in this order |
| `Buses.Bus.RunAdmitted` | src/anymodbus/bus.py:424-474 | a call that holds the lock draws a fresh id and makes at least one attempt, even on a bus closed while it waited |
| `Buses.Bus.Txn` | src/anymodbus/bus.py:386-474 | a call with no other waiting keeps the history orderly, reports each attempt once with increasing ids and numbers, and returns what its last attempt gave; a closed bus or a bad address sends nothing |
| `Buses.Bus.RunBroadcast` | src/anymodbus/bus.py:495-516 | a broadcast that holds the lock goes out once, with one report that promises no retry |
| `Buses.Bus.Broadcast` | src/anymodbus/bus.py:476-516 | only write function codes go out; a closed bus or another function code sends nothing |
| `Buses.OutcomeTellsUncertain` | src/anymodbus/bus.py:146-167 | the reported outcome says whether a window was called for |
| `Buses.OutcomeTellsError` | src/anymodbus/bus.py:146-167 | and exactly which failures each outcome stands for |
| `Buses.DefaultPolicyRetries` | src/anymodbus/bus.py:803-824 | the default policy retries exactly damage, answers to something else and timeouts, of function codes 1, 2, 3, 4 and 8, while attempts are left |
| `Buses.DefaultPolicyAttempts` | src/anymodbus/bus.py:424-474 | under it a call of those function codes goes on to its last allowed attempt while its attempts fail that way, unless cancelled in a pause; any other makes one |
| `Buses.RetriedExactly` | src/anymodbus/bus.py:803-824 | for every policy: by the classes each failure belongs to, up to the root of the hierarchy |
| `Buses.MostMade` | src/anymodbus/bus.py:803-824 | a call makes at most retries + 1 attempts, and a single one where the policy retries nothing, or not its function code |
| `Timing.SettledCleared` | src/anymodbus/bus.py:559-561 | closing a window that was waited out leaves no earlier reply unaccounted for |
| `Callers.AnyInterleaving` | src/anymodbus/bus.py:405-474 | any number of callers, interleaved in any order: one at a time holds the lock, frames are separated by the end of the attempt before, each started attempt but the running one is reported once in order, ids and numbers are consecutive, and a refused caller leaves no trace |
| `Callers.SendsAreSeparated` | src/anymodbus/bus.py:424-463 | half duplex: between two frames the first one's attempt was reported |
| `Callers.OneReportEach` | src/anymodbus/bus.py:451-463 | the reports are the started attempts in order, all but one still on the line |
| `Callers.StartsIncrease` | src/anymodbus/bus.py:546-548 | ids and attempt numbers only increase, numbers within one caller's call |
| `Callers.ClosedStartsNothing` | src/anymodbus/bus.py:405-424 | a closed bus starts no attempt any more if and only if no caller had passed the closed test, waits, pauses or may still retry; a call that is never retried is allowed one attempt |
| `Callers.LockedCallIsARun` | src/anymodbus/bus.py:424-474 | what a call or broadcast reports while it holds the lock is a run of these steps, from the lock free to the lock free |
| `Callers.GuestsFirst` | src/anymodbus/bus.py:405-474 | every interleaving ends as one in which all arrivals, refusals, cancellations in the queue and closes come first, in their order, and then the calls that get the lock run undisturbed, in theirs: the same starts, sends and reports |
| `Callers.Drive` | src/anymodbus/bus.py:337-343 | the bus itself, driven by any schedule of arrivals, cancellations, calls and closing: what it starts, sends and reports, in order, its ids and its closed flag are those of a run of these steps |
| `LateReplies.LateReplySafety` | src/anymodbus/bus.py:550-601 | over every history of a bus, if each request causes at most one reply and none is later than the configuration tolerates, every byte an attempt reads as its reply was caused by its own request |
| `LateReplies.NextReadsItsOwn` | src/anymodbus/bus.py:663-723 | one attempt reads its own bytes if every attempt before it did and no reply is later than tolerated |
| `LateReplies.DroppedAreLate` | src/anymodbus/bus.py:565-601 | every byte dropped while waiting for the line belongs to an earlier uncertain attempt, or had been there before the first one, if the attempts before read their own |
| `LateReplies.NeverCapped` | src/anymodbus/bus.py:576-601 | with bounded replies and a timeout that leaves room for the silence no discard reaches its cap |
| `LateReplies.AnsweredWholeByFraming` | src/anymodbus/framer.py:263-361 | the assumption that an answer leaves nothing of its reply unread follows from framing: a reply that is one whole frame is read to its end |
| `LateReplies.AnswersAreGenuine` | src/anymodbus/bus.py:550-601 | on a line whose slaves answer with at most one whole frame, soon enough, every answer accepted is the frame its own request caused, read from its first byte to its last |
| `LateReplies.SafeExactly` | src/anymodbus/config.py:60-75 | for every configuration and lag: it is safe for replies late by a bound if and only if, with a reset before requests, the bound is within the gap and the wait for the window and a silence or the cap, and otherwise, with a window, within the window or the silence and more than the lag before the cap of the discard |
| `LateReplies.ToleratesInNumbers` | src/anymodbus/bus.py:576-587 | that condition in numbers |
| `LateReplies.UnsafeBeyondReach` | src/anymodbus/config.py:60-75 | otherwise, for every configuration, a history that keeps all of the bus's guarantees in which a call is answered with another call's bytes, within its own request timeout: after the silence, or, for replies that come before it ends, after a discard that is kept busy to its cap |
| `LateReplies.LateReplyAccepted` | src/anymodbus/config.py:66-69 | those bytes can be a reply frame the second call accepts as its own: the value of another register |
| `LateReplies.LateReplyDropped` | src/anymodbus/bus.py:550-601 | a concrete history in which a late reply is dropped within the window and the next call reads its own: the assumptions can be met |
| `LateReplies.GapsHold` | src/anymodbus/bus.py:603-645 | no frame goes out before every earlier attempt has ended plus the idle gap, nor before an uncertain one's window or a successful broadcast's turnaround is over |
| `LateReplies.EstimateBounds` | src/anymodbus/config.py:106-143 | for a slave within its turnaround, length and line speed, no reply is later after its attempt than the estimate and what the request may still drain; no later than the estimate if every uncertain attempt lasted until its request was out |
| `LateReplies.EstimateInBits` | src/anymodbus/config.py:134-143 | the estimate allows eleven bits for each character at the line speed, besides the turnaround and the latency |
| `LateReplies.EstimateIsSafe` | src/anymodbus/config.py:113-118 | a window of at least the estimate makes every attempt read its own bytes, if every uncertain attempt lasted until its request was out - recorded as sent, with the output drained or with time enough for that - and the input is reset or the lag is below the request timeout |
| `LateReplies.DrainingIsSafe` | src/anymodbus/config.py:113-118 | without that the window must also cover the draining, whether the send was cut off or returned without draining; then the same holds |
| `LateReplies.CutOffSendOutlivesEstimate` | src/anymodbus/config.py:113-118 | with a window of exactly the estimate, whatever the limits, a history in which the next call reads the reply of a cancelled one within its own request timeout: cancelled midway through its send, or after a send that returned on a stream that does not drain, although recorded as sent; for lines on which the request takes no longer than the request timeout |
| `Client.Slave.For` | src/anymodbus/slave.py:127-140 | only addresses 1 to 247 have a handle |
| `Client.Slave.Request` | src/anymodbus/slave.py:161-279 | a call returns what one whole frame of its slave carries: the requested count or the exact echo, or that slave's exception; it fails with a ModbusError or a cancellation, and otherwise exactly when it has read an ASCII exception PDU without its code; arguments out of range send nothing |
| `Client.UnhandledExactly` | src/anymodbus/framing.py:140-149 | an attempt fails outside the documented errors if and only if the framing is ASCII and the PDU it read is the bare exception code |
| `Client.BareExceptionEscapes` | src/anymodbus/framing.py:149 | such a reply, encoded with a correct LRC and there in time, makes any call that is not cut short fail that way |
| `Client.TimesOutInTime` | src/anymodbus/bus.py:690-703 | a call reports a timeout only after reading for its whole request timeout, never when the reply it was waiting for was complete in time, and, in ASCII or with an inter-character gap, never when the next byte was there in time, stray frames or not |
| `Client.RtuExceptionLength` | src/anymodbus/framer.py:316-319 | an exception PDU read in RTU has its exception code |
| `Client.SendsPerCall` | src/anymodbus/bus.py:415-474 | a call sends its one frame at most retries + 1 times, and once where the policy retries nothing, as a write under the idempotent-only policy |
| `Client.RepetitionActsOnce` | src/anymodbus/_mock/slave.py:303-404 | a repeated request acts at most once, and one of a retryable function code not at all |
| `Client.RetryTransparency` | src/anymodbus/_types.py:50-92 | whichever sends of a call arrive, the banks end as after none or one application |
| `Decoders.UnpackPackWords` | src/anymodbus/decoders.py:73-91 | unpacking undoes packing, for any number of words and all four orders |
| `Decoders.PackUnpackWords` | src/anymodbus/decoders.py:73-91 | packing undoes unpacking, for any payload of whole registers |
| `Decoders.LowHighLittleIsReversal` | src/anymodbus/decoders.py:73-81 | low word first with swapped bytes is the byte reversal of the natural order |
| `Decoders.DecodeEncodeInt` | src/anymodbus/decoders.py:180-287 | 16, 32 and 64-bit integers encode exactly on their range and decode back, in every order |
| `Decoders.EncodeDecodeInt` | src/anymodbus/decoders.py:180-287 | every register pattern decodes to an integer that encodes back to it |
| `Decoders.IntegerMeans` | src/anymodbus/decoders.py:180-287 | the number that registers stand for, for each width and all four orders: base 65536, most significant first unless reversed, bytes swapped or not, in two's complement |
| `Decoders.IntegerRange` | src/anymodbus/decoders.py:94-106 | exactly which numbers can be encoded |
| `Decoders.DecodeEncodeString` | src/anymodbus/decoders.py:295-371 | a string that fits survives null padding exactly when it does not end in a NUL, for odd and even lengths |
| `Decoders.ReadWrittenString` | src/anymodbus/slave.py:357-423 | the same through writing and reading back, where an odd length is cut before stripping |
| `Decoders.StringWritten` | src/anymodbus/decoders.py:323-371 | where each character and each byte of padding stands, and exactly which strings fit |
| `Decoders.StringReadBack` | src/anymodbus/slave.py:357-391 | which characters reading back returns, cut and stripped |

## Left out

- Buses.Bus.RunAdmitted: within one call the bus can be closed only by a port that fails; closing it from outside between the waits of a running call is a step of `Callers`, where `GuestsFirst` moves it before the call.
- Buses.Bus.Txn: how long pauses and sends take is bounded below only, unlike discards and reads; no liveness is claimed, and nothing about the order in which waiting callers get the lock.
- RtuFramer.ReadRawAdu: with no inter-character gap set, behind stray frames only that it never times out early.
- LossyLine.LossyCallIsPlain: an assumption about the line, not a model of it, names the attempt that sent each request the server read, and says that a reply frame brought about by an answered attempt is one the server sent for that attempt's request, and that a request brings about one reply frame at most.
- Buses.Bus.FinishAttempt: observers are one list of reports; wall-clock stamps, and observers that raise or are removed, are not modelled.
- Line.ByteStream.Receive: an operating-system TimeoutError raised by a stream is not told apart from other port failures.
- LateReplies.UnsafeBeyondReach: a history the bus's guarantees allow; that the waits of a discard can take exactly these times is not derived.
- RtuRequests.ResynchronisesIffTwoGaps: exact without lag; with lag the two sufficient conditions of `ReadUnknownRequest` leave a margin of the lag between them.
- Baud-dependent automatic timing, and the detection of `drain` and `reset_input_buffer`: idle times and switches are configuration values.
- MockServers.MockServer.Serve: the request callback is not modelled, and nothing is claimed about the last frame when serving is cancelled during a delayed reply.
- Subclasses of the mock slave that override `handle`: the banks' own behaviour only.
- Decoders.DecodeEncodeString: text encodings other than one byte per character; characters a codec refuses.
- Floats: IEEE 754 values are not modelled.
- `Slave.probe`, capabilities and the validation of configuration classes: easy branch-by-branch claims; configuration bounds are preconditions.
- FC 0x16, 0x17 and 0x2B client calls: the client does not implement them; their framing lengths are in the tables.
- `sync.py`, `stream.py`, `testing.py`, `_mock/pair.py`: wrappers and wiring.
- Logging and message texts.
