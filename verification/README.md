# StarSocket: a verified model of the wire protocol and the shared pools

This project models the server side of StarSocket (`StarServer/StarSocketServer.cpp` and the `Client_t`
record of `StarServer/StarSocketServer.h`) and two helpers of the MySQL headers bundled with it, and
proves what the protocol is for: messages come out as they went in, damage is noticed, files arrive
whole, nothing is delivered twice, and the shared pools never hand out the same thing twice.

`dafny verify dfyconfig.toml` checks everything.

## How it is laid out

Each part has a form on values, about which the theorems are proved, and, where the source works in
place, a class or a method over arrays that is proved against that form.

| module | what it is |
|---|---|
| `Bytes` | little-endian fields, stores into a buffer (`Splice`), concatenation |
| `Gf2`, `Crc` | polynomials over GF(2), schoolbook long division, the shift register, error detection |
| `Words`, `CrcTables` | C unsigned arithmetic as bits; the table generators and the three CRC loops |
| `Fragments` | messages cut into fragments and regrouped from their boundary bits |
| `Slots`, `Packets` | the 64 KB buffer with its slots; header, size table and body of a packet, and reading them back |
| `Files` | a file cut into chunks behind the message part, and both receivers of chunks |
| `Link` | `recv` and `send` driven by plans that decide how much each call moves; the CRC check of a frame |
| `Sender` | class `Sender`: the send half of `Client_t`, which builds a packet in the buffer that holds its own input |
| `Session`, `Receiver` | `processMessageBuffer` on values with theorems over all runs; class `Client`, which reads, checks and regroups in place |
| `Reception` | what a session makes of any packets it can read, with sending, duplicates and damage in between |
| `Delivery` | both halves put together: what one side means is what the other side's session receives |
| `Serving` | the worker's loop, which reads, hands over, answers and sends, against the session's runs, for every split of the streams |
| `Interleaving`, `DbPool`, `Workers` | state machines whose steps are the atomic actions of threads |
| `DbResults` | class `Results`: the stored result of each database connection |
| `ByteOrder`, `TrailingSpace` | the MySQL byte codecs and `skip_trailing_space` |

## What the proofs found

- **Empty messages and packet numbers.** A fragment carries an 8-bit packet number and the receiver sees
  only whether it changed. An empty message takes a number but no slot, so the messages come out as
  meant exactly when `Fragments.WellNumbered` holds: the first non-empty message is at a call position
  divisible by 256, and the distance between one non-empty message and the next one sent is not. Without
  empty messages that is always so. When empty messages push the first non-empty one to a position that
  is not divisible by 256, the receiver regroups into message -1, and in no other case
  (`Fragments.BadStartBreaks`); an empty message and then any other one is the smallest such batch
  (`Fragments.EmptyFirstMessageBreaks`).
- **Full batches.** Past 62 fragments a message is cut or dropped without notice to the caller: a batch is
  meant whole if and only if it needs at most 62 (`Fragments.ExpectedWhole`), and what arrives of a larger
  one is a proper prefix (`Fragments.FullBatchLoses`, `Fragments.ExpectedIsPrefix`).
- **CRC.** 0xA001 is used most significant bit first, although the comment beside it speaks of the
  inverted form: the polynomial is x^16 + x^15 + x^13 + 1, not that of CRC-16/ARC. It still detects all
  bursts up to 16 bits and all odd errors. The CRC-32 constant, used the same way, has no constant term,
  and some burst goes unnoticed (`CrcTables.OtherWidths`).
- **Chunk size.** The room left in a packet is an `int` compared with a `u32`. Behind a message part of
  more than 60 KB the room is negative and counts as more than enough, so the whole rest of the file goes
  at once. `Sender.NextPacketFits` says exactly when the packet stays within 64 KB; 62 full slots and a
  file of 2000 bytes are enough to exceed it (`Sender.LargeBatchOverflows`). With a larger DATA_BUFFER such
  a packet is built and sent, with a CRC over its length modulo 65536, and a receiver running this code
  drops the connection (`Session.OversizedPacketIsRefused`, `Reception.AcceptedExactly`).
- **Counters.** `s_nCurDBConnect` and `s_nCurLoginCount` are plain integers that several threads increment
  and decrement. They are exact after every step if and only if every increment and decrement finds, when
  it writes, the value it has read (`DbPool.CounterIsExact`, `Workers.LoginCountIsExact`). That is so when
  no thread writes the counter while another is between its read and its write, as with atomic updates or
  a lock (`DbPool.AtomicCounterIsExact`, `Workers.AtomicLoginCountIsExact`). The source has neither; two
  short runs after which the counters stay wrong are `DbPool.CounterGoesWrong` and
  `Workers.LoginCountGoesWrong`. Who gets which connection or slot does not depend on them.
- **One-time servers.** After its first confirm such a server drops the connection on a packet without a
  chunk and goes on taking packets with one (`Reception.AcceptedExactly`). So a worker is given a whole
  stream of batches if and only if each packet is still taken when it arrives (`Serving.WorkerDelivers`);
  `Serving.AlwaysWelcome` names three cases in which that is certain.
- **Reused slots.** When a connection is accepted, `curPacketNo` is reset, but not `sendCount`
  (`StarServer/StarSocketServer.cpp:1363-1372`): fragments left pending when a client goes are sent to the
  next client in its slot. Its batches are what it was meant to get if and only if nothing was left
  pending (`Slots.LeftoversAreSent`).
- **fileDataReady** is never raised by this sender: the receiver compares the whole flag word with END,
  and the sender ORs END into HEADER or CONTINUE (`Files.TransferContents`).
- **Lost chunks.** When the file for a chunk cannot be opened, a packet with a HEADER chunk is not accepted,
  but any other one is, and its bytes are lost without notice (`Reception.UnopenedChunk`).
- **Whose packets.** The server's own packets carry fromID -1, which `processMessageBuffer` takes for a
  stranger's: it drops the connection (`Session.ServerPacketsAreRefused`). The end-to-end theorems
  therefore replace fromID by a client id.
- **RETRASMIT** repeats the last packet across later calls of `STSV_SendData` if and only if that packet
  has at most 2048 bytes, because the slots start there (`Slots.BatchSurvives`). With nothing sent yet
  the write of no bytes counts as a broken connection.

## How the source is read

- The host is little-endian; structures have no padding. `recvBuffer` holds at least 64 KB + 12 bytes, and
  `sendBuffer` at least 64 KB, in which case the slots fit; the default DATA_BUFFER of 64 KB is 12 bytes
  too short for the largest packet that `processMessageBuffer` lets through.
- `Client_t` is split into `Sender.Sender` and `Receiver.Client`, which owns one. `EndPackSendData` also
  zeroes `recvCount` and sets `sendDone`, fields of the other half: `Serving.EndTurn` and the events
  `Flush` and `Acknowledge` of `Session` do that. It stores packNo a second time with the value it already
  has, which is left out.
- A session starts with `sendCount` 0, which the source does not see to itself (see "Reused slots").
- A packet on which the source leaves its buffers or reads what the packet does not hold is the outcome
  `Fault`: a size table, or a chunk header, that leads out of the packet, even where the bytes behind it
  are still inside `recvBuffer`; a regrouping that starts with a set bit or counts more than 64 messages;
  a negative count with a chunk behind it; a message part that ends at offset 65536 or later with a chunk
  behind it, for which the source's u16 offset wraps around; a size below 4, for which the source takes its CRC over bytes
  of earlier packets; and a packet to be sent that is longer than the send buffer. A class stops there as the value form does, and
  theorems about runs speak of a run up to its first `Fault`.
- A registration that announces more bytes than `recvBuffer` holds is not a `Fault` in the model: only the
  number of bytes its one read returns matters.
- `Env` holds what the surroundings decide: whether files open, the verdict of the version check, and how
  many bytes the one non-blocking read of a registration returns. A plan is `Orderly` when no call fails
  before the stream ends.
- Files are byte strings under the C string in their 32-byte name field; a file does not change while it
  is sent. A file has less than 2 GB.
- In the state machines only its own worker clears a slot's `online`, and joins succeed. Every read and
  every write of a shared flag or counter is a step of its own.

## Model

| member | source | states |
|---|---|---|
| Fragments.RoundTrip | StarServer/StarSocketServer.cpp:2720-2761 | for every batch of messages, regrouping the fragments of STSV_SendData by their boundary bits gives exactly the messages meant (cut at 62 fragments) if and only if the batch is WellNumbered |
| Fragments.NonEmptyRoundTrip | StarServer/StarSocketServer.cpp:2071-2117 | without empty messages the batch arrives exactly if and only if it needs at most 62 fragments; a larger one is regrouped too, as a proper prefix of its bytes |
| Fragments.Delivery | StarServer/StarSocketServer.cpp:2289-2300 | a well-numbered batch arrives as meant; any other one is refused, or arrives as fewer messages than meant |
| Fragments.DeliverMessage | StarServer/StarSocketServer.cpp:2094-2115 | the fragments of one call, added to any batch, arrive as one message or as the continuation of the last one, depending on the packet number alone |
| Fragments.ExpectedWhole | StarServer/StarSocketServer.cpp:2724-2751 | a batch is meant whole if and only if it needs at most 62 fragments |
| Fragments.ExpectedIsPrefix | StarServer/StarSocketServer.cpp:2747-2750 | whatever does not fit is cut from the end: the bytes meant are a prefix of the bytes passed in |
| Fragments.FullBatchLoses | StarServer/StarSocketServer.cpp:2747-2756 | a batch that needs more than 62 fragments loses bytes, whatever its messages are |
| Fragments.BadStartBreaks | StarServer/StarSocketServer.cpp:2268-2296 | a batch cannot be regrouped if and only if its first non-empty message is at a call position that is not a multiple of 256 |
| Fragments.SendAllCounts | StarServer/StarSocketServer.cpp:2724-2757 | the queue holds one fragment per started 1024 bytes, never more than 62, and the packet number counts the calls modulo 2^16 |
| Slots.SendDataAccepts | StarServer/StarSocketServer.cpp:2720-2761 | filling slots of the one buffer appends the fragments of the message to the queue those slots stand for, and leaves every byte below the next slot alone |
| Slots.BatchSurvives | StarServer/StarSocketServer.cpp:731-733 | a packet left at the front of the buffer survives every later run of STSV_SendData if and only if it ends at or before byte 2048 |
| Slots.LeftoversAreSent | StarServer/StarSocketServer.cpp:1363-1372 | a slot taken over with its packet number reset batches the calls of the next client as a new slot would if and only if nothing was left pending in it |
| Sender.Sender.SendData | StarServer/StarSocketServer.cpp:2720-2761 | the loop over the arrays does to the buffer, sizes, numbers and counters exactly what the queue operation says, empty and over-long messages included |
| Sender.Sender.FillSlots | StarServer/StarSocketServer.cpp:2725-2751 | cutting block by block into slots equals the recursive cut, and stops at slot 62 |
| Sender.MoveBlock | StarServer/StarSocketServer.cpp:2302-2306 | a fragment is moved down without overlapping its own slot, extending the payload already moved |
| Sender.Sender.WriteTable | StarServer/StarSocketServer.cpp:2289-2300 | the table loop writes size and boundary bit of every fragment, the bit flipping exactly where the packet number changes, and nothing else |
| Sender.Sender.Compact | StarServer/StarSocketServer.cpp:2302-2306 | compaction inside the buffer leaves the concatenation of all the original slots behind the table, though it overwrites slots already read |
| Sender.Sender.PackDataWithPacket | StarServer/StarSocketServer.cpp:2257-2309 | the buffer that held the slots now starts with header, table and payload of exactly the pending fragments, the rest of it unchanged |
| Sender.Sender.RoomForChunk | StarServer/StarSocketServer.cpp:2331-2369 | behind a message part of at most 60 KB the chunk is the smaller of what is left of 60 KB and what is left of the file; behind a larger one it is all that is left of the file |
| Sender.Sender.PackDataWithBigData | StarServer/StarSocketServer.cpp:2310-2391 | type, size, flag words, name and the next bytes of the file are appended to the packet in the buffer, and the progress fields move on by that chunk, for every packet that the buffer holds, however large it is |
| Sender.Sender.PackDataWithCrc16 | StarServer/StarSocketServer.cpp:2392-2399 | the CRC stored covers the bytes from 16 on, as many as the size says modulo 65536, which in a packet of at most 64 KB are all of them |
| Sender.NextPacketFits | StarServer/StarSocketServer.cpp:2310-2391 | the packet stays within 64 KB if and only if there is no chunk, the message part is at most 60 KB, or the rest of the file is short enough to go at once |
| Sender.LargeBatchOverflows | StarServer/StarSocketServer.cpp:2336-2369 | 62 full slots and a file of 2000 bytes make a packet that neither fits 64 KB nor is taken by a receiver |
| Sender.Sender.Flush | StarServer/StarSocketServer.cpp:2667-2681 | exactly sizeAll + 12 bytes go out, and the queue is empty again under packet number 0 |
| Sender.Sender.EndPackSendData | StarServer/StarSocketServer.cpp:2639-2690 | one call sends the encoding of the pending batch with the next chunk and empties the queue, or sends a 12-byte confirm and changes nothing; on an orderly connection, however split, all of it arrives |
| Sender.Sender.SendDBFile | StarServer/StarSocketServer.cpp:2762-2785 | a transfer starts from the first byte; one under way goes on undisturbed, and so does everything queued |
| Delivery.SenderBuildsBatches | StarServer/StarSocketServer.cpp:2639-2690 | over any run of batches, each with something to send and a packet that fits the buffer, the send half builds the packets of EndToEnd, but for the fromID, advances its file as the exchange of the chunks says, and starts every batch from an empty queue and packet number 0 |
| Packets.ReadBack | StarServer/StarSocketServer.cpp:2071-2117 | reading any packet back from its bytes is well formed, yields what regrouping its fragments yields, and finds the chunk behind the message part |
| Packets.ReadFields | StarServer/StarSocketServer.cpp:2269-2287 | every header field reads back as written |
| Packets.ReadEntry | StarServer/StarSocketServer.cpp:2297-2297 | the 11-bit size and the boundary bit of each table entry read back as written |
| Files.TransferContents | StarServer/StarSocketServer.cpp:2310-2391 | over any run of calls with any messages mixed in, the receiver's file is the part sent so far, and the whole file exactly once the sender has stopped; no other file changes; END is on the last chunk only; fileDataReady stays down |
| Files.TransferProgress | StarServer/StarSocketServer.cpp:2331-2391 | with room bytes left in every packet, each call moves at least that many or finishes; HEADER is on the first chunk and no other; the transfer ends once the calls add up to the file |
| Files.ChunkFields | StarServer/StarSocketServer.cpp:2331-2391 | the chunk as sent is recognised by the receiver: flags, size, name and bytes read back, and its flag word is never END alone |
| Files.ChunkFits | StarServer/StarSocketServer.cpp:2353-2369 | when exactly a chunk behind a message part of any size stays within 64 KB |
| Files.BigDataReassembly | StarServer/StarSocketServer.cpp:2118-2183 | after any chunks, the temporary file is what the chunks from the last HEADER on contribute, which is nothing for a chunk with none of the three flags and the payload for any other, and bigDataReadSizeDone is its length as a u32 |
| Files.BigDataReady | StarServer/StarSocketServer.cpp:2132-2180 | bigDataReady is up if and only if a chunk since the last HEADER carried END |
| Receiver.Client.ProcessMessagePacket | StarServer/StarSocketServer.cpp:2071-2117 | the loop over the size table fails exactly where regrouping fails, and otherwise leaves pointers and sizes that show exactly the regrouped messages inside the receive buffer |
| Receiver.Client.TailStart | StarServer/StarSocketServer.cpp:2121-2130 | the offset added up again from the size table is where the message part ends |
| Receiver.Client.ProcessBigData | StarServer/StarSocketServer.cpp:2118-2183 | the flag tests do to the temporary file and the progress fields what the value form says |
| Receiver.Client.ProcessFileData | StarServer/StarSocketServer.cpp:2184-2255 | the same for a data file |
| Receiver.Client.ProcessMessageBuffer | StarServer/StarSocketServer.cpp:2401-2630 | however the stream is split into reads, the new state, the return value and the reply are those of Session.Handle on the next 12-byte header and the body it announces, exactly those bytes are taken from the stream, and the connection stays fit for the next call |
| Receiver.Client.CheckAndDeliver | StarServer/StarSocketServer.cpp:2578-2619 | the CRC decides: a frame that fails it is asked for again and changes nothing, one that passes is delivered |
| Receiver.Client.ReadBody | StarServer/StarSocketServer.cpp:2529-2538 | the announced bytes end up behind the header, or the connection ended before they had arrived |
| Receiver.Client.Register | StarServer/StarSocketServer.cpp:2426-2490 | a registration overwrites only the first words of the send buffer and becomes what RETRASMIT repeats |
| Receiver.Client.Resend | StarServer/StarSocketServer.cpp:2493-2504 | RETRASMIT writes the last packet again, and closes the connection when there is none |
| Receiver.Client.SendReTrasmit | StarServer/StarSocketServer.cpp:2047-2059 | the request of `Session.RepeatRequest` for that packet goes out, and nothing but a broken connection changes |
| Session.AcceptedOrUntouched | StarServer/StarSocketServer.cpp:2540-2619 | a packet is accepted only under a larger number with a matching CRC, which becomes packRef; any other packet leaves packRef alone and, when files open, the files and flags too |
| Session.NoPacketTwice | StarServer/StarSocketServer.cpp:2540-2544 | over every run of arbitrary packets mixed with sending, up to a fault if there is one, the accepted numbers strictly increase from packRef on, the last one is packRef, and each brought exactly one delivery |
| Session.RetransmitFidelity | StarServer/StarSocketServer.cpp:2493-2504 | the last packet stays in the buffer byte for byte across any run without a registration or a new packet, calls of STSV_SendData included if it has at most 2048 bytes |
| Session.RetransmitReply | StarServer/StarSocketServer.cpp:2493-2504 | after such a run a RETRASMIT request is answered with exactly that packet |
| Session.RepeatRequest | StarServer/StarSocketServer.cpp:2047-2055 | the request to repeat a packet is 12 bytes with its number, and any session answers exactly that request with the packet it sent last |
| Session.ConfirmFields | StarServer/StarSocketServer.cpp:2060-2066 | the confirm is 12 bytes of type -10 from -1 with the number confirmed and no body |
| Session.RegistrationAnswered | StarServer/StarSocketServer.cpp:2426-2490 | a registration that comes with both versions is answered with its type and the verdict over the first words of the send buffer, which RETRASMIT repeats from then on; any other ends the connection |
| Session.DamagedPacketIsAskedForAgain | StarServer/StarSocketServer.cpp:2578-2588 | a packet damaged behind its header by a burst of at most 16 bits or in an odd number of bits is not delivered but asked for again, whenever a packet of its kind is taken at all |
| Reception.DamagedPacketGetsThrough | StarServer/StarSocketServer.cpp:2493-2588 | a damaged packet gets through: what its receiver writes makes its sender repeat it, whatever harmless events have passed, and the copy is accepted as the packet would have been |
| Reception.RepeatsOnRequest | StarServer/StarSocketServer.cpp:2493-2504 | the request makes the sender repeat the packet byte for byte |
| Reception.AsksAndAccepts | StarServer/StarSocketServer.cpp:2578-2619 | the receiver asks for a damaged packet and then accepts a copy |
| Session.ServerPacketsAreRefused | StarServer/StarSocketServer.cpp:2518-2522 | a packet with the server's own fromID drops the connection |
| Session.OversizedPacketIsRefused | StarServer/StarSocketServer.cpp:2532-2536 | a packet whose size is over 64 KB drops the connection, whether or not its body arrives |
| Link.Socket.ReadFrom | StarServer/StarSocketServer.cpp:1571-1607 | reads until the count is reached, whatever each recv returns; all or 0, and on an orderly connection all there is |
| Link.Socket.WriteTo | StarServer/StarSocketServer.cpp:1608-1643 | writes all bytes in order, whatever each send takes, or returns 0 after a proper prefix |
| Link.EncodedPasses | StarServer/StarSocketServer.cpp:2578-2583 | every packet of at most 64 KB passes the CRC check of the receiver |
| Link.DamagedFails | StarServer/StarSocketServer.cpp:2578-2583 | a frame that differs from a packet behind the header by a short burst or an odd number of bits fails it |
| Delivery.EndToEnd | StarServer/StarSocketServer.cpp:2401-2630 | for any number of batches with rising numbers and a file behind them, each packet still taken when it arrives, and with anything sent the other way and any asides in between, the session delivers the messages meant, batch by batch, under the numbers used, and holds the files that exchanging the chunks makes |
| Delivery.FileArrives | StarServer/StarSocketServer.cpp:2184-2255 | once the sender's transfer is over, the receiver's file is the content sent and no other file has changed, while every message was delivered |
| Serving.FramingRoundTrip | StarServer/StarSocketServer.cpp:2413-2538 | the reader's cuts turn a stream of frames, bare headers and registrations into exactly those again, one a call, with the rest of the stream behind them |
| Serving.Serve | StarServer/StarSocketServer.cpp:1795-1816 | the worker's loop, for every split of both streams: its client ends in the state to which the run of the conversation over the pieces of the stream leads, what went out is what that run sends, and the stream is used up unless the run gave up the connection |
| Serving.WorkerDelivers | StarServer/StarSocketServer.cpp:1795-1816 | a worker that runs this loop on a stream of batches has read all of it when the loop ends and was given every message meant, batch by batch, and the file, whatever the callback answered, if and only if each packet was still taken when it arrived |
| Serving.AlwaysWelcome | StarServer/StarSocketServer.cpp:2552-2561 | every packet is taken by a server that is not of the one-time kind, by one that answers with data only, and by any when each packet carries a chunk |
| Serving.Answer | StarServer/StarSocketServer.cpp:1805-1807 | after an accepted packet the callback's messages and EndPackSendData lead where the corresponding calls and flush or confirm lead the session, and send the same bytes |
| Serving.WorkerAnswers | StarServer/StarSocketServer.cpp:1803-1807 | on any connection, each accepted packet is answered at once with one packet under its number that reads back as exactly the messages the callback answered with and carries the next chunk of the file, or with its confirm |
| Serving.ReplyAnswers | StarServer/StarSocketServer.cpp:1805-1807 | the same for one answer from an empty queue, empty messages included, and the queue is empty again afterwards |
| Reception.PacketAccepted | StarServer/StarSocketServer.cpp:2592-2619 | one packet of any data kind with a new number and a client id is accepted and does exactly what its parts say: its messages, its big data and its file chunk |
| Reception.AcceptedExactly | StarServer/StarSocketServer.cpp:2532-2619 | a readable packet with a new number is accepted if and only if its size is at most 64 KB and, on a one-time server that has confirmed, it carries a chunk; otherwise the connection ends |
| Reception.AllReceived | StarServer/StarSocketServer.cpp:2401-2630 | any run of readable packets with rising numbers, each still taken when it arrives, with anything sent the other way and any asides in between (registrations, pings, repeat requests, duplicates, cut or damaged copies), is accepted, each once, and brings its messages and chunks in order; only sending a packet longer than the buffer ends the run |
| Reception.BigDataArrives | StarServer/StarSocketServer.cpp:2599-2607 | over any such run, file chunks among them, the temporary file and bigDataReady are what the big-data chunks from the last HEADER on make them |
| Reception.UnopenedChunk | StarServer/StarSocketServer.cpp:2144-2178 | when its file cannot be opened a HEADER chunk keeps the packet from being accepted, and any other chunk is lost in a packet that is accepted |
| Reception.AfterConfirm | StarServer/StarSocketServer.cpp:2552-2561 | after its confirm a one-time server takes a packet with a chunk and drops the connection on one without; any other server goes on |
| Reception.AsideExactly | StarServer/StarSocketServer.cpp:2425-2588 | while files can be opened, what arrives on an open connection is an aside (an answered registration, a request to repeat a packet there is, a ping, an unknown kind, an old number, a cut or damaged packet) if and only if it is not accepted, does not end the connection and does not fault |
| Reception.AsideKeeps | StarServer/StarSocketServer.cpp:2425-2588 | an aside changes nothing of the receive half but the message list, and keeps the connection |
| Reception.AsideAnswer | StarServer/StarSocketServer.cpp:2425-2588 | what each aside is answered with: a registration's verdict, the last packet, a request to repeat, or nothing |
| CrcTables.InitTable | StarServer/StarSocketServer.cpp:3191-3246 | each table entry is the register after eight shifts, for every polynomial, although the 8- and 16-bit generators let bits pile up above their width |
| CrcTables.Crc8 | StarServer/StarSocketServer.cpp:3254-3268 | the loop over a table for any polynomial computes the remainder of long division |
| CrcTables.Crc16 | StarServer/StarSocketServer.cpp:3270-3285 | the same, with junk above bit 15 of the 32-bit register |
| CrcTables.Crc32 | StarServer/StarSocketServer.cpp:3287-3301 | the same, with the all-ones initial register added to the leading bits |
| CrcTables.PacketCrcDetects | StarServer/StarSocketServer.cpp:239-240 | two payloads of one length that differ by a burst of at most 16 bits or in an odd number of bits have different CRCs |
| CrcTables.PacketCrcLinear | StarServer/StarSocketServer.cpp:3270-3285 | the packet CRC of a sum of two payloads is the sum of their CRCs, which its initial value 0 makes so |
| CrcTables.Polynomial16 | StarServer/StarSocketServer.cpp:239-239 | the divisor is x^16 + x^15 + x^13 + 1: it has a constant term and an even number of terms |
| CrcTables.OtherWidths | StarServer/StarSocketServer.cpp:236-245 | the CRC-8 polynomial detects every burst of at most 8 bits; the CRC-32 constant misses a burst of at most 32 bits |
| Crc.RegisterIsRemainder | StarServer/StarSocketServer.cpp:3210-3227 | the shift register fed bit by bit holds the remainder of long division, for every polynomial, initial value and message |
| Crc.TableStep | StarServer/StarSocketServer.cpp:3278-3279 | eight bits at once through the table equal eight single shifts |
| Crc.Linear | StarServer/StarSocketServer.cpp:3270-3285 | the CRC of a sum is the sum of the CRCs |
| Crc.BurstDetection | StarServer/StarSocketServer.cpp:3210-3227 | all bursts up to the width of the register are detected if and only if the divisor has a constant term |
| Crc.OddErrorDetection | StarServer/StarSocketServer.cpp:3210-3227 | all errors in an odd number of bits are detected if and only if the divisor has an even number of terms |
| Crc.RegisterParity | StarServer/StarSocketServer.cpp:3270-3285 | with such a divisor the parity of the register is the parity of all bits fed so far |
| Interleaving.Conservation | StarServer/StarSocketServer.cpp:2722-2759 | in every interleaving of calls with the owner's packing, the fragments ever queued are the batches sent and then those pending, and each batch is exactly what a consecutive run of calls builds |
| Interleaving.NothingLost | StarServer/StarSocketServer.cpp:2651-2681 | without empty messages or full batches, what the receiver regroups and then the calls pending are all the messages ever passed in, once, whole and in order |
| Interleaving.NoEmptyBatch | StarServer/StarSocketServer.cpp:2651-2652 | though the owner tests sendCount before it takes the mutex, it never packs an empty batch unless a file is in transit |
| Interleaving.TurnSends | StarServer/StarSocketServer.cpp:2651-2681 | the owner's next turn sends exactly what is pending, in one batch, and empties the queue; with nothing pending and no file it sends none |
| Interleaving.EverythingArrives | StarServer/StarSocketServer.cpp:2651-2681 | after such a turn every message passed in so far has been received, once, whole and in order |
| DbPool.NoSharing | StarServer/StarSocketServer.cpp:2936-2960 | in every interleaving no two callers are given the same connection, and an unlocker finds its flag set, whatever becomes of the counter |
| DbPool.OnlyOpenConnections | StarServer/StarSocketServer.cpp:2944-2944 | in every interleaving a caller is only given a connection that has been opened |
| DbPool.ScanFinds | StarServer/StarSocketServer.cpp:2943-2953 | a scan that alone moves finds the first available connection, going round once at most |
| DbPool.CallerGetsOne | StarServer/StarSocketServer.cpp:2936-2960 | a caller at a free mutex that alone moves holds the first available connection, counted and flagged, with the mutex released |
| DbPool.CallerGivesBack | StarServer/StarSocketServer.cpp:2919-2934 | a caller that gives its connection back clears its flag and counts it off |
| DbPool.CounterIsExact | StarServer/StarSocketServer.cpp:2919-2960 | after every step s_nCurDBConnect is the number of set flags plus finders between increment and set minus unlockers between decrement and clear, if and only if every increment and decrement finds the value it has read when it writes; it is then never negative and the clamp is never reached |
| DbPool.AtomicCounterIsExact | StarServer/StarSocketServer.cpp:2919-2960 | when nobody writes the counter between another caller's read and write, it is exact after every step and never negative, and the clamp is never reached |
| DbPool.CounterDrift | StarServer/StarSocketServer.cpp:2919-2960 | in every interleaving the counter is what it should be plus what updates with an outdated value have put it off by |
| DbPool.CounterGoesWrong | StarServer/StarSocketServer.cpp:2919-2960 | a run of two callers on two connections after which no connection is held and the counter is 1 |
| DbPool.CounterAtRest | StarServer/StarSocketServer.cpp:2919-2960 | when no caller is inside the two functions, the counter is the number of connections held plus its drift, which is 0 when every update finds the value it has read |
| Workers.OneWorkerPerSlot | StarServer/StarSocketServer.cpp:1322-1403 | in every interleaving two live workers never serve one slot |
| Workers.OverwritesOnlyFreeSlots | StarServer/StarSocketServer.cpp:1337-1402 | the acceptor overwrites the fields of a slot only when no live worker serves it |
| Workers.SlotsComeBack | StarServer/StarSocketServer.cpp:1810-1823 | in every interleaving, a slot whose workers have left their loops, and which the acceptor is not at work on, is free again |
| Workers.AcceptCreates | StarServer/StarSocketServer.cpp:1337-1402 | an accept takes the first free slot once its old thread can be joined: that slot alone is overwritten, one worker is created for it, and the client is counted |
| Workers.AcceptGivesUp | StarServer/StarSocketServer.cpp:1391-1397 | when the thread cannot be created the slot is free again and nothing is counted |
| Workers.FullServerRefuses | StarServer/StarSocketServer.cpp:1339-1344 | a server without a free slot turns the client away and changes nothing |
| Workers.LoginCountIsExact | StarServer/StarSocketServer.cpp:1764-1824 | after every step s_nCurLoginCount is the number of live workers less the one created but not yet counted, modulo 2^32, if and only if every increment and decrement finds the value it has read when it writes |
| Workers.AtomicLoginCountIsExact | StarServer/StarSocketServer.cpp:1400-1400 | when nobody writes the login counter between another thread's read and write, it is exact after every step |
| Workers.LoginCountGoesWrong | StarServer/StarSocketServer.cpp:1400-1400 | a run after which one client is connected and the counter is 2 |
| DbResults.Results.constructor | StarServer/StarSocketServer.cpp:797-804 | at the start no connection has a result |
| DbResults.Results.Query | StarServer/StarSocketServer.cpp:2979-3044 | the old result is freed first whatever becomes of the query; afterwards the connection has a new result with its counts, or none and counts of -1 |
| DbResults.Results.ReleaseResult | StarServer/StarSocketServer.cpp:3173-3183 | a result that is freed had not been freed before, and the connection then has none |
| DbResults.Results.LastInsert | StarServer/StarSocketServer.cpp:2962-2977 | asking for the last id frees the result held, even on a connection that is not locked, where it answers 0 |
| DbResults.Results.Disconnect | StarServer/StarSocketServer.cpp:2893-2904 | at the end every result ever stored has been freed |
| ByteOrder.StoreThenRead | MySQL/include/my_byteorder.h:31-101 | every value in range, stored and read at widths 2, 3, 4, 5, 6 and 8, comes back |
| ByteOrder.ReadThenStore | MySQL/include/my_byteorder.h:31-101 | every byte string, read and stored again, comes back |
| ByteOrder.SignedRoundTrip | MySQL/include/my_byteorder.h:31-43 | the signed readers recover every signed value at widths 2, 3, 4 and 8, the 3-byte sign extension included |
| ByteOrder.ReaderReads | MySQL/include/byte_order_generic.h:38-69 | every unsigned reader gives the little-endian value of its bytes |
| ByteOrder.Int2Store | MySQL/include/byte_order_generic.h:76-81 | writes the two digits of the value and no other byte |
| ByteOrder.Int3Store | MySQL/include/my_byteorder.h:77-82 | writes three digits and no other byte |
| ByteOrder.Int4Store | MySQL/include/byte_order_generic.h:83-89 | writes four digits and no other byte |
| ByteOrder.Int5Store | MySQL/include/my_byteorder.h:84-91 | writes five digits and no other byte |
| ByteOrder.Int6Store | MySQL/include/my_byteorder.h:93-101 | writes six digits and no other byte |
| ByteOrder.Int8Store | MySQL/include/byte_order_generic.h:91-97 | two 4-byte stores write the eight digits of the value and no other byte |
| ByteOrder.OnlySpaces | MySQL/include/m_string.h:339-340 | uint8korr equals 0x2020202020202020 if and only if all eight bytes are spaces |
| TrailingSpace.SkipTrailingSpace | MySQL/include/m_string.h:334-346 | the end found eight bytes at a time is the end found by trimming one space at a time |
| TrailingSpace.TrimmedEndIs | MySQL/include/m_string.h:343-345 | that end is the only one behind which all is space and before which is none |

## Left out

- Rooms and lobby, the UDP accept path, logging, configuration, clocks, keyboard input and the game callbacks: no part in the protocol.
- The version check of a registration: its verdict is a parameter.
- `recv`, `send`, `poll`, files, threads and the MySQL client themselves: replaced by plans, byte strings, atomic steps and answers.
- The big-data block pool: its spin flag is a plain read and then a write, so it excludes nobody; and GetBigData, FreeBigData, which only hand its blocks out.
- The notices for duplicate logins and a full server: fixed 12-byte messages.
- The socket options and the other fields AcceptConnection resets: only those the life cycle depends on are in `Workers`.
- Sender.Sender.EndPackSendData: does not model a packet longer than the send buffer, which the source writes past its end (`Serving.EndTurn` faults there), nor a file that changes or shrinks while it is sent.
- Session.Next: `Flush` and `Acknowledge` assume that the write succeeds; a failed write ends the session.
- Session.NoPacketTwice: says nothing of what follows a packet that faults, because the source has then left its buffers or read bytes of earlier packets.
- Receiver.Client.ProcessMessageBuffer: on a packet that faults it promises only that the value form faults too.
- Serving.Serve: leaves out the connect and disconnect callbacks and the poll timeout; of the request callback only what it sends is modelled, and a callback that starts a file transfer in between is not.
- DbResults.Results.Query: result sets have non-negative row and field counts; the text of the query and reconnecting are not modelled.
- The x86 readers of the byte order headers and the sparc version of `skip_trailing_space`: other platforms' forms of the same functions.
