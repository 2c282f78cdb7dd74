# Verified core of the Linux IoT edge gateway

A Dafny model of the parts of the gateway whose correctness is a statement about whole runs:
the serial framing stack, at-least-once MQTT delivery with its two caches, Modbus RTU polling,
and JSON Lines over TCP. `dafny verify dfyconfig.toml` checks the whole project.

| module | models |
|---|---|
| `Words`, `BitRegister`, `Crc16` | 8- and 16-bit arithmetic, the CRC shift register, `crc16_modbus` |
| `Frames`, `Scanner`, `RingBuffer`, `FrameParsing` | the frame format, one batch scan as the reference, the ring buffer, the incremental parser |
| `Sensor`, `SensorJson`, `JsonReader` | measurement payload, range checks, JSON text, a receiver of it |
| `SerialLine`, `Uart` | serial line events, `UartDevice`, the worker loop of `DeviceManager` |
| `Delivery`, `Ordering` | the delivery protocol; exactly when it keeps global order, sends nothing twice and survives a wiped cache |
| `Histories`, `Publisher`, `PublisherRuns` | histories of runs on one cache, `ReliablePublisher` over either cache, any sequence of its calls and restarts |
| `Handshake`, `EndToEnd` | the PUBACK handshake of `MqttClient`, and the protocol over it |
| `FileCaching`, `FileScripts`, `SqliteCaching`, `MessageCaching` | the text-file cache and its whole histories, the SQLite cache, the interface over both |
| `ModbusRtu`, `ModbusPolling` | Modbus frames, response assembly, polling |
| `Tcp` | the line framing of `TcpClient` |

## What is proved

**Serial framing.** `Scanner.Scan` is one greedy scan of a complete byte string. The real parser
pushes bytes one at a time into a 256-byte ring buffer and drains it after each; `FeedAll` and
`FrameParser.Feed` show that for every stream and every way of cutting it into calls the frames,
both error counters and the leftover are those of that scan, and that the overflow branch is never
taken. What the scan means is stated without reference to how it runs: it reports exactly the frames
of the stream that do not begin inside a frame already reported (`GreedyExact`). Whatever precedes a
good frame, it has been reported or overlapped once 68 bytes from its start have arrived
(`Recovery`, and `RecoveryReturned` for the list a parser returns), and 67 are not always enough
(`RecoveryIsTight`). A frame inside another frame's payload is hidden (`NestedFrameHidden`), so "a
bad start never hides a good frame" holds only with that exception. Both error counters are
characterised by the bytes of the stream (`ErrorsExact`).

**Checksum.** The word-level double loop is shown equal to a 16-bit feedback register clocked bit by
bit, and to a remainder computed with division and addition only (`CrcArithmetic`, `CheckValue`).
Hence the zero residue, the parity law, and for messages of any length the detection of every odd
number of flipped bits and of every burst within 16 consecutive bits, at any bit position. Both
protocols inherit this: a damaged frame is never accepted, and where its header and length are
intact a checksum error is counted for it unless a reported frame overlaps it; a damaged Modbus
response is always a checksum error.

**UART runs.** A run of the serial line is a script of chunks, silences and failures. Over the whole
run, with reconnects, what the handler got plus what is queued is exactly the valid measurements of
each session's byte stream; every fault and failure is reported once and counted once (`RunDevice`).

**Delivery.** Runs of the publisher are sequences of effects in which the environment chooses the
broker's answers, how much of the cache a read shows, the outcome of cache operations, what a failed
append leaves behind, and crashes between any two effects. `AtLeastOnce` counts messages with
multiplicity; `ReplayOrder` gives the order of first replays. What does not hold of every run has a
run in which it fails and its exact condition, in terms of how many acknowledged messages earlier
flushes failed to remove: a publish overtakes a waiting message if and only if the cache holds more
than those (`OvertakesExact`, `GlobalOrderExact`), a replay is a repetition if and only if it is one
of those (`RepeatExact`, `AtMostOnceExact`), and a wiped cache loses exactly what lies behind those
(`WipeExact`).

**Publisher and handshake.** `ReliablePublisher` works on either cache and keeps a history of
protocol runs that always ends in the queue the cache really holds. Each operation states if and
only if the cache ends up as its result says: a deferred message must be readable afterwards, a
failed append must not run into another message, a removal must have seen the whole queue or take
all of it. Where it does not, a new run starts on what is there, and the operation names the
messages that went missing. So at-least-once holds over every life of a cache, restarts included, up
to the messages named (`AtLeastOnceOverall`). What a call reports, what the broker acknowledges
during it, what it loses and what it leaves in the cache are functions of what the cache holds;
`RunPublisher` shows that the object carries out every life as they say. What they say is pinned
down in turn: a flush that nothing hinders delivers the whole queue and empties the cache
(`FlushDelivers`, `FlushEmptiesExact`). Nothing is lost over a life if and only if every call of it
is harmless (`LifeLosesNothing`), and the cache-depth gauge is right after every call if and only if
every call keeps it (`LifeGauge`): besides reads that fall short, a failed append that leaves a
message makes it wrong. `Handshake` covers the threads below: in every run, however calls overlap,
true is returned only for a message whose callback has run; when a call decides true is
characterised for every run, and with serialised calls it is exactly when its own callback has run.
A run shows that overlapping calls lose acknowledgements. Put together, every acknowledgement the
protocol counts has a call of its own whose callback has run (`AcknowledgedMeansFired`).

**Caches.** Both refine one queue. For the text file the exact conditions are proved: an append adds
its message if and only if the file ended at a line boundary, and a removal drops the first messages
and no others if and only if its re-read went through or nothing was to stay. A fragment of a line
always costs the next message appended, and past its topic it also makes the file refuse to be
rewritten (`FragmentLosesNext`). A failed append adds what it wrote, or nothing, if and only if the
fragment before it does not read as a message (`PartialAppendExact`); otherwise that message is
lost, an inherited one included (`FailedAppendSpoils`). Over whole histories the file reads as the
queue its caller believes in, after every call, if and only if every call is harmless
(`ScriptExact`). A rewrite does not always undo a fragment: one that got past its topic survives as
a message (`RepairExact`).

**Modbus and TCP.** Responses are accepted exactly when they are the encoding for the request, in
whatever pieces they arrive, and over a run the handler gets the measurements of the polls. Over any
run of short writes, interruptions, failures and reconnects, the complete lines on the connections
are the messages for which `send_json` returned true; for validated measurements no assumption about
line breaks is needed, and a receiver of the JSON text gets back every field (`ReceiverReads`).

## How the source is represented

- Unsigned 8- and 16-bit values are bounded integers; shifts are division and multiplication, masks
  of single bits are parity tests, and exclusive or goes through the binary digits.
- Objects whose methods update fields are classes with those fields; the parser, the ring buffer,
  the devices, the caches, the publisher and the TCP client keep the source's loops. The tests at
  the top of the drain loop and the body of the worker loop are methods of their own
  (`JudgeFront`, `Turn`).
- What the operating system, the broker or the database decides is a parameter: the events of the
  serial line, whether a port opens, how many bytes a send accepts, whether a statement succeeds.
  The end of a script stands for the moment the loop is told to stop, for the response deadline, or
  for a final failing send.
- On the serial line a `Broken` event fails the call that meets it, be it opening the port or
  reading; any other event lets an open succeed and is then seen by the read.
- Temperature and humidity are kept in tenths, the integers on the wire.

## Assumptions

- Cache statements are atomic, and so is the rename that replaces the cache file; appends to the
  file are not.
- In `Delivery`, a failed removal leaves the cache as it was, and removals work from a faithful read
  where a statement says `Faithful`; `WipeExact`, `RemoveExact` and `FlushCache` show what happens
  otherwise, and `AtLeastOnceOverall` makes no such assumption.
- libmosquitto hands out no message id that is in flight or whose callback has not finished.
- On a TCP connection the peer gets the accepted bytes in order, possibly not all of them when the
  connection is lost; `RunSends` is about the accepted bytes, `PeerReceivesPrefix` about what arrives.

## Where code and documentation differ

- The documents promise replay in the original order. The code orders deferred messages among
  themselves; a message published directly can overtake them (`NoGlobalOrder`), exactly when
  `OvertakesExact` says so.
- The documents say an out-of-range measurement is published with `valid` false and its warnings.
  On the UART path such a frame is counted as a generic error and dropped, and `main` hands only valid
  measurements to the publishers.
- For Modbus, the error handler is also called for every turn in which no poll is due, so its calls
  exceed the device's error count by exactly those turns (`RunPolls`).

## Model

| member | source | states |
|---|---|---|
| BitRegister.AddThenShift | src/protocol/crc16.cpp:9-17 | adding a byte to the register and then shifting zeros is the same as clocking the byte's bits in one by one |
| BitRegister.WindowInjective | src/protocol/crc16.cpp:11-17 | from one register, two bit strings of at most 16 bits that leave equal top bits are equal |
| BitRegister.BurstDetected | src/protocol/crc16.cpp:11-17 | bit strings of any length that differ, and only inside a window of at most 16 bits, leave different registers |
| BitRegister.Residue | src/protocol/crc16.cpp:11-17 | clocking 16 bits in empties the register exactly when they are its contents |
| BitRegister.ClockAllParity | src/protocol/crc16.cpp:12-16 | the parity of the register after a message is the sum of its parity before and the message's |
| Crc16.FoldByte | src/protocol/crc16.cpp:9-17 | the inner loop performs one byte step of the register |
| Crc16.Crc16Modbus | src/protocol/crc16.cpp:5-21 | the double loop computes the fold of byte steps over the whole message, which is the remainder computed from 0xFFFF by division and addition only |
| Crc16.CrcArithmetic | src/protocol/crc16.cpp:5-21 | the checksum without exclusive or: from 0xFFFF, each message bit halves the register and exchanges its digits 0, 13 and 15 when it differs from the digit that leaves |
| Crc16.CheckValue | src/protocol/crc16.cpp:5-21 | the known check value 0x4B37 of the text 123456789, and the checksums of no byte and of one zero byte |
| Crc16.StartComplements | src/protocol/crc16.cpp:6 | starting from 0xFFFF is starting from zero with the first two bytes complemented |
| Crc16.CrcClocks | src/protocol/crc16.cpp:8-18 | the word-level computation equals the 16-bit feedback register with taps 0, 13 and 15 clocked over the message's bits |
| Crc16.ZeroResidue | src/protocol/crc16.cpp:11-17 | message plus two check bytes has checksum zero exactly when the check bytes are the message's checksum |
| Crc16.CrcParity | src/protocol/crc16.cpp:8-18 | the checksum has an odd number of ones exactly when the message has |
| Crc16.BurstChangesCrc | src/protocol/crc16.cpp:5-21 | messages that differ only inside 16 consecutive bits never share a checksum |
| Crc16.OddFlipsChangeCrc | src/protocol/crc16.cpp:5-21 | flipping an odd number of bits anywhere changes the checksum |
| Crc16.DamageDetected | src/protocol/crc16.cpp:5-21 | both kinds of damage change the checksum, for messages of any length |
| Crc16.DamageAfterPrefix | src/protocol/frame_parser.cpp:60-63 | damage that spares an uncovered prefix is damage of the same kind to the covered rest |
| Frames.ParseInvertsEncode | src/protocol/frame_parser.cpp:19-70 | every well-formed frame is read back from its encoding |
| Frames.ParseOnlyEncodings | src/protocol/frame_parser.cpp:19-70 | whatever is accepted is the encoding of a well-formed frame |
| Frames.ParseExact | src/protocol/frame_parser.cpp:19-70 | a byte string parses to a frame if and only if the frame is well-formed and the string is its encoding |
| Frames.FrameBytes | src/protocol/frame_parser.cpp:19-70 | which bytes a frame consists of: 0xAA, 0x55, a length of at most 64, command, device, payload, checksum low byte first |
| Frames.DamagedFrameRejected | src/protocol/frame_parser.cpp:26-67 | an odd number of flipped bits, or a burst within 16 bits, anywhere in a frame makes it unacceptable |
| Scanner.DamagedFrameJudged | src/protocol/frame_parser.cpp:98-144 | the verdict on a frame so damaged with header and length intact is a checksum error |
| Scanner.DamagedFrameCounted | src/protocol/frame_parser.cpp:98-144 | once the scan has passed the beginning of such a frame, a checksum error has been counted there or a reported frame overlaps it |
| Scanner.JudgeWidth | src/protocol/frame_parser.cpp:125-139 | a verdict consumes no more than is there, and a good one consumes exactly the frame's encoding |
| Scanner.BadCrcIsMismatch | src/protocol/frame_parser.cpp:132-143 | a complete candidate is refused exactly when its checksum does not match |
| Scanner.JudgeByBytes | src/protocol/frame_parser.cpp:98-144 | each verdict by the bytes alone: waiting, a frame, an oversized length, a complete candidate that is no frame |
| Scanner.JudgeStable | src/protocol/frame_parser.cpp:98-144 | later bytes never change a verdict already reached |
| Scanner.ScanAppend | src/protocol/frame_parser.cpp:79-145 | scanning a stream is scanning a prefix and then its leftover together with the remainder |
| Scanner.WaitIsShort | src/protocol/frame_parser.cpp:105-130 | when the scanner has to wait, fewer than 71 bytes are held back |
| Scanner.ScanTile | src/protocol/frame_parser.cpp:98-144 | the verdicts are those on the stream from the offset at which the previous ones end |
| Scanner.ScanRest | src/protocol/frame_parser.cpp:98-144 | the leftover is the stream from where the verdicts end |
| Scanner.ScanIsTheTiling | src/protocol/frame_parser.cpp:98-144 | a stream has exactly one tiling by verdicts that ends in a wait, and the scan computes it |
| Scanner.ReportedIsThere | src/protocol/frame_parser.cpp:132-139 | a reported frame lies in the stream at its offset, byte for byte |
| Scanner.ReportsDisjoint | src/protocol/frame_parser.cpp:136-139 | reported frames do not overlap |
| Scanner.GreedyExact | src/protocol/frame_parser.cpp:98-144 | among scanned offsets, exactly the frames that do not begin inside a reported frame are reported |
| Scanner.FramesInOrder | src/protocol/frame_parser.cpp:132-139 | the k-th frame returned is reported at the k-th offset, after the end of every frame returned before it |
| Scanner.ReportedIsReturned | src/protocol/frame_parser.cpp:132-139 | every reported frame is in the list returned, at its offset |
| Scanner.Recovery | src/protocol/frame_parser.cpp:98-144 | once 68 bytes from the start of a good frame have arrived it has been reported or a reported frame overlaps its start |
| Scanner.RecoveryReturned | src/protocol/frame_parser.cpp:98-144 | bounded recovery for the list of frames returned |
| Scanner.RecoveryIsTight | src/protocol/frame_parser.cpp:125-130 | with 67 bytes it may still be unseen, behind a stray header announcing the longest payload |
| Scanner.NestedFrameHidden | src/protocol/frame_parser.cpp:136-139 | a frame carried in another frame's payload is in the stream but is not reported |
| Scanner.Conservation | src/protocol/frame_parser.cpp:98-144 | bytes fed are bytes in reported frames, plus dropped bytes, plus buffered bytes; errors never exceed dropped bytes |
| Scanner.ErrorsExact | src/protocol/frame_parser.cpp:114-143 | over every stream the length errors are the passed offsets outside reported frames with a header and a length above 64, and the checksum errors those with a complete candidate that is no frame; what is kept back is the beginning of a possible frame |
| Scanner.QuietIsSkipped | src/protocol/frame_parser.cpp:100-112 | noise without a header in front of a frame is skipped without an error being counted |
| Scanner.CleanLine | src/protocol/frame_parser.cpp:98-139 | frames with header-free noise between them are reported, all and in order, with no error and no leftover |
| RingBuffer.ByteRingBuffer.constructor | src/protocol/byte_ring_buffer.h:94-98 | an empty queue of the given capacity |
| RingBuffer.ByteRingBuffer.Push | src/protocol/byte_ring_buffer.h:16-25 | appends to the queue, or refuses and changes nothing exactly when full |
| RingBuffer.ByteRingBuffer.PushAll | src/protocol/byte_ring_buffer.h:27-37 | appends as many bytes as fit, in order, and says how many |
| RingBuffer.ByteRingBuffer.Consume | src/protocol/byte_ring_buffer.h:39-45 | drops that many bytes from the front, or all |
| RingBuffer.ByteRingBuffer.At | src/protocol/byte_ring_buffer.h:47-53 | the queue's byte at an index, none outside |
| RingBuffer.ByteRingBuffer.Copy | src/protocol/byte_ring_buffer.h:55-71 | the stretch of the queue asked for, none if it does not lie inside |
| RingBuffer.ByteRingBuffer.Clear | src/protocol/byte_ring_buffer.h:73-76 | empties the queue |
| FrameParsing.StreamAppend | src/protocol/frame_parser.cpp:79-96 | what a further chunk adds to frames, both counters and leftover |
| FrameParsing.FrameParser.constructor | src/protocol/frame_parser.h:30-34 | an empty buffer, zero counters, nothing fed |
| FrameParsing.FrameParser.Accept | src/protocol/frame_parser.cpp:86-90 | a byte is appended, the oldest making room and being counted only when the buffer is full |
| FrameParsing.FrameParser.JudgeFront | src/protocol/frame_parser.cpp:99-142 | one turn's tests give the reference verdict on the buffer's contents |
| FrameParsing.FrameParser.DrainBuffer | src/protocol/frame_parser.cpp:98-145 | on any buffer contents the loop terminates with exactly the reference scan of them |
| FrameParsing.FrameParser.Feed | src/protocol/frame_parser.cpp:79-96 | frames, counters and buffered bytes are those of one scan of everything fed since construction or reset; fewer than 71 bytes stay and overflow is never counted |
| FrameParsing.FrameParser.TakeCrcErrorCount | src/protocol/frame_parser.cpp:147-151 | returns the counter and zeroes it |
| FrameParsing.FrameParser.TakeLengthErrorCount | src/protocol/frame_parser.cpp:153-157 | returns the counter and zeroes it |
| FrameParsing.FrameParser.TakeOverflowByteCount | src/protocol/frame_parser.cpp:159-163 | returns the counter and zeroes it |
| FrameParsing.FrameParser.Reset | src/protocol/frame_parser.cpp:173-178 | starts a new stream with zero counters |
| FrameParsing.ParseStream | src/protocol/frame_parser.cpp:72-77 | the frames of one scan of the data |
| FrameParsing.FeedAll | src/protocol/frame_parser.cpp:79-145 | for every sequence of feeds: frames and buffered bytes of one scan of the concatenation, both counters equal to the number of offsets that deserve them, zero overflow, and bounded recovery of every good frame |
| Sensor.RulesExact | src/app/sensor_data.cpp:27-55 | the rules keep the reading and leave it unflagged exactly when it is in range |
| Sensor.ValidateExact | src/app/sensor_data.cpp:84-88 | validity means in range, and an invalid reading always carries a warning |
| Sensor.WarningsExact | src/app/sensor_data.cpp:27-55 | a text is among the warnings exactly when it is the warning of a broken rule |
| Sensor.WarningsInOrder | src/app/sensor_data.cpp:27-55 | the whole list of warnings: one for each broken rule, in the order of the rules |
| Sensor.ValidateReading | src/app/sensor_data.cpp:84-88 | validation depends on the reading only and is idempotent |
| Sensor.AcceptedIsValidated | src/app/sensor_data.cpp:59-82 | an accepted frame gives a validated measurement |
| Sensor.ParseSensorExact | src/app/sensor_data.cpp:59-82 | a frame is accepted as a reading if and only if its payload is the encoding of that in-range reading |
| Sensor.PayloadRoundTrip | src/app/sensor_data.cpp:69-77 | every field of an in-range reading is read back from its 11 bytes, the temperature with its sign |
| Sensor.AcceptedInRange | src/app/sensor_data.cpp:64-81 | an accepted frame has 11 payload bytes and an in-range reading without warnings |
| Sensor.ReadingBytes | src/app/sensor_data.cpp:59-82 | every field of a reading by the bytes of the payload, high byte first, and the refusal of every other length |
| SensorJson.JsonClean | src/app/sensor_data.cpp:90-119 | the JSON text contains a control character only if a warning does |
| SensorJson.CheckedJsonClean | src/app/sensor_data.cpp:27-119 | the JSON text of a validated measurement contains no control character, so no line break |
| SensorJson.JsonInjective | src/app/sensor_data.cpp:90-119 | equal texts come from equal readings with equal verdicts, and from equal measurements when both were validated |
| JsonReader.ReceiverReads | src/app/sensor_data.cpp:90-119 | a receiver that splits the text at commas, looks fields up by their names and reads digits by their codes gets back every field, the verdict and the warnings |
| JsonReader.CheckedReadBack | src/app/sensor_data.cpp:90-119 | for validated measurements the verdict and the warnings come back without any condition on the warnings |
| Uart.MeasurementsTakeBytes | src/device/uart_device.cpp:68-75 | each accepted measurement took an 18-byte frame |
| Uart.FewMeasurements | src/device/uart_device.cpp:50-71 | one read can yield at most 18 measurements |
| Uart.EveryFrameCounts | src/device/uart_device.cpp:68-75 | every frame is either measured or counted as refused |
| Uart.RefusedExact | src/device/uart_device.cpp:68-75 | a frame is refused exactly when it is the encoding of no reading in range |
| Uart.FaultsByBytes | src/device/uart_device.cpp:62-75 | the faults of a stream, kind by kind, by its bytes |
| Uart.OneSession | src/device/device_manager.cpp:72-114 | a stretch of the line without failures is one session holding all its bytes |
| Uart.FailureSeparates | src/device/device_manager.cpp:72-114 | a failure separates the sessions before it from those after it |
| Uart.BreaksExact | src/device/device_manager.cpp:103-110 | the failures counted are those that happened |
| Uart.CleanSession | src/device/uart_device.cpp:62-75 | the readings encoded by terminals on a line with header-free noise come out, all and in order, without a fault |
| Uart.UartDevice.constructor | src/device/uart_device.cpp:21-24 | nothing queued, nothing counted |
| Uart.UartDevice.Start | src/device/uart_device.cpp:26-35 | a successful open starts a new stream; a failed one is counted and changes nothing else |
| Uart.UartDevice.Stop | src/device/uart_device.cpp:37-41 | the device is offline |
| Uart.UartDevice.Collect | src/device/uart_device.cpp:68-75 | queues the accepted measurements of the frames in order and counts the others |
| Uart.UartDevice.Ingest | src/device/uart_device.cpp:62-75 | the stream grows by the chunk, the queue by the measurements gained, the statistics are the faults gained |
| Uart.UartDevice.Read | src/device/uart_device.cpp:43-107 | queued data first; a transport error only with an empty queue; otherwise measurements gained are returned or queued and faults gained are counted and reported |
| Uart.Turn | src/device/device_manager.cpp:72-114 | one turn of the worker loop, with the calls of both handlers it causes |
| Uart.RunDevice | src/device/device_manager.cpp:69-117 | over any run with reconnects: handled plus queued data are the valid measurements of every session in order; each fault and each failure is reported once and counted once; at most 17 measurements stay queued |
| Delivery.StepInv | src/mqtt/reliable_publisher.cpp:23-133 | every effect but an unfaithful removal keeps the delivery invariant |
| Delivery.ExecuteInv | src/mqtt/reliable_publisher.cpp:23-133 | every reachable state satisfies it, whatever fails and wherever the process crashes |
| Delivery.CrashAnywhere | src/mqtt/reliable_publisher.cpp:23-133 | a run can be cut by a crash after any of its effects |
| Delivery.AcknowledgedMessages | src/mqtt/reliable_publisher.cpp:84-107 | acknowledged positions account for as many acknowledged messages, counted with multiplicity |
| Delivery.AtLeastOnce | src/mqtt/reliable_publisher.cpp:23-133 | every message reported Published or Deferred, and every inherited one, is acknowledged or still cached, whatever failed appends leave behind; nothing leaves the cache unacknowledged |
| Delivery.ReplayOrder | src/mqtt/reliable_publisher.cpp:72-118 | deferred messages are first acknowledged in the order they were queued, despite duplicates |
| Ordering.ExecuteSegment | src/mqtt/reliable_publisher.cpp:72-118 | in every faithful run the positions acknowledged by replays are an initial part of the queue, whose end follows from how many acknowledged messages flushes failed to remove |
| Ordering.OvertakesExact | src/mqtt/reliable_publisher.cpp:29-35 | while a message is offered, one queued earlier is still waiting if and only if the cache holds more than flushes failed to remove; with tidy flushes, if and only if the cache is not empty; never with an empty cache |
| Ordering.GlobalOrderExact | src/mqtt/reliable_publisher.cpp:23-133 | a whole run keeps global order if and only if every direct acknowledgement meets such a cache |
| Ordering.NoGlobalOrder | src/mqtt/reliable_publisher.cpp:29-35 | a run in which a later message is acknowledged while an earlier one waits in the cache |
| Ordering.RepeatExact | src/mqtt/reliable_publisher.cpp:84-113 | the message a flush is about to send was acknowledged before if and only if an earlier flush had it acknowledged and did not get to remove it |
| Ordering.AtMostOnceExact | src/mqtt/reliable_publisher.cpp:65-133 | no deferred message is acknowledged twice in a run if and only if no flush sends such a message |
| Ordering.TidyReplays | src/mqtt/reliable_publisher.cpp:65-133 | when every flush removes what it had acknowledged, the replays go through the queue once, from the front |
| Ordering.DuplicateAfterCrash | src/mqtt/reliable_publisher.cpp:106-113 | a run in which a crash between acknowledgement and removal leads to a second delivery |
| Ordering.WipeExact | src/cache/file_cache.cpp:163-167 | a removal that rewrites the cache empty loses exactly the messages behind those acknowledged by this flush or left by earlier ones, and keeps the delivery invariant if and only if there are none; with tidy flushes, if and only if the flush had the whole cache acknowledged |
| Ordering.WipeLosesMessages | src/cache/file_cache.cpp:163-167 | a run in which one removal that re-reads an unreadable file loses the messages behind the acknowledged ones |
| Histories.AtLeastOnceOverall | src/mqtt/reliable_publisher.cpp:23-133 | over every sequence of protocol runs on one cache, whatever happens to it in between: every message found at the beginning or accepted is acknowledged, in the cache, or among those one run left and the next did not find |
| Histories.CountOverall | src/mqtt/reliable_publisher.cpp:41-47 | messages found and entered are those in the cache, those removed, and those that went missing between runs |
| Histories.AdvancePasses | src/mqtt/reliable_publisher.cpp:23-133 | what a call adds to the history: its effects, and a new run exactly when the cache is not what they make of it |
| Publisher.ReliablePublisher.constructor | src/mqtt/reliable_publisher.cpp:8-21 | starts a new run on what the cache holds; the gauge is what the read showed |
| Publisher.ReliablePublisher.Enqueue | src/mqtt/reliable_publisher.cpp:41-58 | the cache takes the message or not; it ends up as the result says if and only if a stored message can be read back and a failed append does not run into another message; the messages missing are named |
| Publisher.ReliablePublisher.Publish | src/mqtt/reliable_publisher.cpp:23-59 | result, cache, protocol state and counters for every answer of broker and cache; the invariant survives every call, the run goes on if and only if the cache is as the result says, the messages missing are named, and a right gauge stays right if and only if a deferred message's read shows everything and a failed append leaves no message |
| Publisher.ReliablePublisher.Replay | src/mqtt/reliable_publisher.cpp:82-107 | messages are acknowledged in order until the broker refuses one |
| Publisher.ReliablePublisher.Dequeue | src/mqtt/reliable_publisher.cpp:113-118 | the acknowledged prefix is removed or stays; the cache ends up as the result says if and only if a removal saw the whole queue or took all of it, and what it did not see is named as lost |
| Publisher.ReliablePublisher.FlushCache | src/mqtt/reliable_publisher.cpp:65-133 | exactly a prefix of what was read is acknowledged, in order, and the same prefix or nothing is removed, with the cache afterwards, the condition and losses of the removal, and the gauge |
| Publisher.ReliablePublisher.Guarantee | src/mqtt/reliable_publisher.cpp:23-133 | at-least-once for everything that ever happened to the cache of a publisher object, file or table, up to the messages its calls named as lost |
| Publisher.ReliablePublisher.GaugeConservation | src/mqtt/reliable_publisher.cpp:41-47 | inherited and enqueued messages and those failed appends left behind are the cached ones, the removed ones and those that went missing |
| PublisherRuns.Serve | src/mqtt/reliable_publisher.cpp:23-133 | one call or restart leaves in the cache, reports, has acknowledged, loses and shows on the gauge what the functions of the cache's contents say, and adds exactly that to the history |
| PublisherRuns.KeepsGaugeExact | src/mqtt/reliable_publisher.cpp:41-47 | a right gauge is right after a call if and only if its reads show the whole queue, a failed append leaves no message, and a removal from the file saw what the flush did |
| PublisherRuns.LosesNothing | src/mqtt/reliable_publisher.cpp:23-133 | a call loses nothing if and only if the cache ends up as its result says |
| PublisherRuns.LifeLosesNothing | src/mqtt/reliable_publisher.cpp:23-133 | nothing is lost over a life of a cache if and only if every call of it is harmless |
| PublisherRuns.LifeGauge | src/mqtt/reliable_publisher.cpp:16-20 | the gauge is the length of the queue after every call of a life if and only if it is at the beginning and every call keeps it |
| PublisherRuns.RunPublisher | src/mqtt/reliable_publisher.cpp:8-133 | over any sequence of publishes, flushes and restarts on one cache, the final cache, the messages reported, acknowledged and lost, and the gauge are those its calls determine, and every message found or reported is acknowledged, readable from the cache, or lost |
| PublisherRuns.FlushDelivers | src/mqtt/reliable_publisher.cpp:65-133 | a flush whose read goes through, whose messages the broker takes and whose removal works has the whole queue acknowledged, in order, and leaves the cache empty |
| PublisherRuns.FlushAdvances | src/mqtt/reliable_publisher.cpp:82-118 | when the broker stops after some messages, exactly those are acknowledged and leave the cache |
| PublisherRuns.FlushEmptiesExact | src/mqtt/reliable_publisher.cpp:65-133 | for both caches, exactly when a flush leaves the cache empty |
| PublisherRuns.PublishDelivers | src/mqtt/reliable_publisher.cpp:29-35 | a message the broker takes is acknowledged and reported, and the cache is not touched |
| PublisherRuns.PublishDefers | src/mqtt/reliable_publisher.cpp:41-58 | a message the broker refuses is reported if and only if the cache takes it, and is then the last in the queue unless a fragment is pending or the table would cut it |
| EndToEnd.AcknowledgedMeansFired | src/mqtt/mqtt_client.cpp:242-306 | when the broker's answers are the results of distinct calls of MqttClient::publish, the entries of both acknowledgement logs belong one to one to different calls whose on_publish ran |
| Handshake.StepInv | src/mqtt/mqtt_client.cpp:225-296 | every step of callers and callbacks keeps the invariant while calls do not overlap |
| Handshake.ExecuteInv | src/mqtt/mqtt_client.cpp:242-296 | every reachable state of serialised calls satisfies it |
| Handshake.EnterExact | src/mqtt/mqtt_client.cpp:225-240 | a call returns false at once if and only if no connection has succeeded since the last one was lost or refused |
| Handshake.SafeStep | src/mqtt/mqtt_client.cpp:225-296 | every step of callers and callbacks, overlapping or not, keeps the soundness invariant |
| Handshake.AcknowledgementSound | src/mqtt/mqtt_client.cpp:225-306 | in every run publish returned true only if on_publish ran for its own message |
| Handshake.DecisionExact | src/mqtt/mqtt_client.cpp:271-296 | in every run a call decides true if and only if a callback for its id ran since the last clear and no other call waiting for that id took it |
| Handshake.AcknowledgementExact | src/mqtt/mqtt_client.cpp:242-306 | with serialised calls that is exactly when on_publish has run for the call's own message |
| Handshake.OverlapLosesAcknowledgement | src/mqtt/mqtt_client.cpp:242-246 | a run without the publisher's mutex in which another call's clear turns an acknowledged publish into a failure |
| FileCaching.LoadFormat | src/cache/file_cache.cpp:61-88 | the text of every separator-free queue reads back as that queue |
| FileCaching.LoadAfterLines | src/cache/file_cache.cpp:71-85 | text appended at a line boundary adds exactly its own messages |
| FileCaching.AppendExact | src/cache/file_cache.cpp:55-58 | an append adds its message and nothing else if and only if the file ended at a line boundary |
| FileCaching.PartialAppendExact | src/cache/file_cache.cpp:55-58 | a failed append adds the message its part of a line reads as, or none, if and only if nothing was written or no message is pending after the last complete line |
| FileCaching.AppendLoses | src/cache/file_cache.cpp:55-58 | the messages missing after a successful append are exactly its own and the pending one, when it did not start at a line boundary |
| FileCaching.FailureLoses | src/cache/file_cache.cpp:55-58 | the message missing after a failed append that wrote something is exactly the pending one |
| FileCaching.FileCache.constructor | src/cache/file_cache.cpp:21-22 | opens on the text an earlier process left |
| FileCaching.FileCache.Append | src/cache/file_cache.cpp:24-59 | succeeds exactly for a separator-free message whose whole line was written; the file gains exactly the characters written; a queue held gains the message, or is still held exactly when nothing was written |
| FileCaching.ViewMisses | src/cache/file_cache.cpp:61-88 | a read of a file that holds a queue shows a prefix of it, and all of it exactly when it opens and goes through to the end |
| FileCaching.ViewShows | src/cache/file_cache.cpp:71-85 | a read that fails after some bytes still shows every message on the lines before |
| FileCaching.CleanExact | src/cache/file_cache.cpp:13-17 | the file takes exactly the messages without tab, line feed and carriage return |
| FileCaching.FileCache.LoadAll | src/cache/file_cache.cpp:61-88 | the messages on the lines read before the read failed, all of them if it did not; an unreadable file looks empty |
| FileCaching.FileCache.ReplaceAll | src/cache/file_cache.cpp:90-156 | all or nothing, refusing separators |
| FileCaching.FileCache.RemoveFirst | src/cache/file_cache.cpp:158-175 | rewrites the file with what the re-read leaves over; a queue loses exactly its first messages if and only if the re-read went through or nothing was to stay |
| FileCaching.RemoveExact | src/cache/file_cache.cpp:163-174 | the first messages and no others are dropped if and only if the re-read went through or nothing was to stay |
| FileCaching.RewriteExact | src/cache/file_cache.cpp:163-174 | on any file: the same with what the read showed, and the messages lost are exactly those not shown and not meant to go |
| FileCaching.FailedRereadIsWipe | src/cache/file_cache.cpp:163-167 | the protocol's wiping removal is this cache's removal with a read that does not open; with tidy flushes it removes the right messages if and only if the delivery invariant survives |
| FileScripts.FragmentLosesNext | src/cache/file_cache.cpp:55-58 | after an append that left a strict part of its line, the next append succeeds but its message is not in the file; past the topic, the file cannot be rewritten with the result |
| FileScripts.FailedAppendSpoils | src/cache/file_cache.cpp:55-58 | a message read from an unterminated line is gone once a failed append gets a single character out |
| FileScripts.RepairExact | src/cache/file_cache.cpp:158-174 | a removal takes a fragment away and leaves exactly the queue if and only if the fragment had not got past its topic or the removal reaches beyond the queue |
| FileScripts.FailedAppendExact | src/cache/file_cache.cpp:55-58 | where no part of a message is pending, a failed append changes what is read if and only if it got past the topic |
| FileScripts.TornExact | src/cache/file_cache.cpp:55-58 | a fragment is pending exactly when the last write was cut short and neither a complete line nor a rewrite followed |
| FileScripts.Perform | src/cache/file_cache.cpp:24-175 | each call has the effect and the result the histories are built from |
| FileScripts.RunFile | src/cache/file_cache.cpp:24-175 | the object carries out every history with those results |
| FileScripts.ScriptExact | src/cache/file_cache.cpp:24-175 | over every history the file reads as the queue the caller believes in after every call if and only if no append succeeded on a fragment, no failed append got past its topic, and every removal saw the whole queue or took all of it |
| SqliteCaching.ContentsInsert | src/cache/sqlite_cache.cpp:14-21 | a row with a larger id is the last message of the queue |
| SqliteCaching.ContentsDelete | src/cache/sqlite_cache.cpp:256-263 | deleting the rows with the n smallest ids drops the first n messages |
| SqliteCaching.SelectSmallest | src/cache/sqlite_cache.cpp:256-263 | the subquery selects the ids of the first messages |
| SqliteCaching.ReadBackExact | src/cache/sqlite_cache.cpp:213-229 | messages come back unchanged if and only if they contain no NUL |
| SqliteCaching.CTextCut | src/cache/sqlite_cache.cpp:213-229 | of a text with a NUL what stands before the first one comes back |
| SqliteCaching.SqliteCache.constructor | src/cache/sqlite_cache.cpp:25-27 | the table as stored, with its next id above all ids |
| SqliteCaching.SqliteCache.Append | src/cache/sqlite_cache.cpp:121-179 | appends to the queue, or changes nothing |
| SqliteCaching.SqliteCache.LoadAll | src/cache/sqlite_cache.cpp:181-242 | the queue in order, each text up to its first NUL, or nothing when the query fails |
| SqliteCaching.SqliteCache.RemoveFirst | src/cache/sqlite_cache.cpp:244-298 | drops the first messages, or changes nothing; refuses a count above the int range |
| MessageCaching.AppendEffect | src/cache/message_cache.h:18-21 | the queue gains the message of a success if and only if it can be read back, and what a failure leaves if and only if it does not run into a pending message; the messages missing are named |
| MessageCaching.Append | src/cache/message_cache.h:18-21 | the same of both cache objects, with what they hold afterwards |
| MessageCaching.LoadAll | src/cache/message_cache.h:23 | on either cache: a prefix of the queue, as much as the read shows |
| MessageCaching.RemovalEffect | src/cache/message_cache.h:25 | a successful removal drops the first messages if and only if it saw the whole queue or took all of it, and what is lost otherwise is named |
| MessageCaching.RemoveFirst | src/cache/message_cache.h:25 | the same of both cache objects, with what they hold afterwards |
| MessageCaching.MeasurementStorable | src/main.cpp:33-52 | the message for a validated measurement is one the file takes and the table gives back |
| MessageCaching.MessageNamesDevice | src/main.cpp:33-42 | the topic consists of the prefix, the decimal number of the device and the suffix; the payload is the JSON text |
| ModbusRtu.ValidCrcIsZeroResidue | src/modbus/modbus_rtu.cpp:29-44 | the stored checksum is right exactly when the checksum of the whole frame is zero |
| ModbusRtu.ValidCrcIsSeal | src/modbus/modbus_rtu.cpp:29-44 | a frame has a valid checksum exactly when it is a message followed by its checksum |
| ModbusRtu.BuildReadRequest | src/modbus/modbus_rtu.cpp:48-65 | the request's fields, big endian, followed by their checksum |
| ModbusRtu.RequestRoundTrip | src/modbus/modbus_rtu.cpp:48-65 | a slave reads back exactly what was asked |
| ModbusRtu.RequestBytes | src/modbus/modbus_rtu.cpp:48-65 | the request byte by byte, with the function codes 3 and 4 |
| ModbusRtu.ParseReadResponse | src/modbus/modbus_rtu.cpp:67-133 | the verdict, and on success all registers, for every frame |
| ModbusRtu.OkExact | src/modbus/modbus_rtu.cpp:111-132 | registers are returned if and only if the frame is their encoding for this request, at most 127 of them |
| ModbusRtu.ExceptionExact | src/modbus/modbus_rtu.cpp:89-103 | an exception is reported if and only if the frame is the encoding of that exception |
| ModbusRtu.VerdictsByBytes | src/modbus/modbus_rtu.cpp:67-119 | each verdict on a response by its own condition on the bytes |
| ModbusRtu.ContentsByBytes | src/modbus/modbus_rtu.cpp:89-132 | the registers of an accepted response high byte first, and the code of an exception |
| ModbusRtu.DamagedResponseRejected | src/modbus/modbus_rtu.cpp:77-81 | a response damaged by noise is always reported as a checksum error |
| ModbusPolling.AssembleResponse | src/device/modbus_device.cpp:68-95 | the loop ends with what the line's events determine |
| ModbusPolling.AssemblyExact | src/device/modbus_device.cpp:74-95 | however a self-delimiting response is cut into pieces, the loop stops holding exactly it |
| ModbusPolling.AssembleByEvents | src/device/modbus_device.cpp:74-95 | what the loop ends with for every course of events: enough bytes, the end of time, a silence, or a failing port |
| ModbusPolling.ResponsesSelfDelimiting | src/device/modbus_device.cpp:90-94 | register and exception responses announce their own length |
| ModbusPolling.ReadingFromRegisters | src/modbus/modbus_rtu.cpp:146-160 | an in-range reading comes back from its registers, the temperature with its sign |
| ModbusPolling.MeasurementOfRegisters | src/modbus/modbus_rtu.cpp:135-160 | the measurement of any registers, field by field, and none from fewer than six |
| ModbusPolling.ModbusDevice.constructor | src/device/modbus_device.cpp:21-25 | the request is kept, nothing is counted |
| ModbusPolling.ModbusDevice.Start | src/device/modbus_device.cpp:27-36 | a failed open is counted |
| ModbusPolling.ModbusDevice.Read | src/device/modbus_device.cpp:44-129 | the result for every outcome of line and response, and one error counted exactly when a due poll yields no data |
| ModbusPolling.PollExact | src/device/modbus_device.cpp:68-110 | registers sent for the request, in whatever pieces, are the registers the poll is decided on |
| ModbusPolling.ExceptionPoll | src/device/modbus_device.cpp:68-110 | an exception sent for the request, in whatever pieces, is the exception the poll is decided on |
| ModbusPolling.RefusedPoll | src/device/modbus_device.cpp:106-110 | such a poll ends in a protocol error, counted once |
| ModbusPolling.AnsweredPoll | src/device/modbus_device.cpp:44-129 | a poll answered with a reading in range, in whatever pieces, yields that reading |
| ModbusPolling.AnsweredRun | src/device/modbus_device.cpp:44-129 | a slave that answers every poll has all its readings handled, in order |
| ModbusPolling.OpenExact | src/device/device_manager.cpp:72-114 | the port is open exactly if it was opened in some turn and no turn from there on broke it |
| ModbusPolling.RunPolls | src/device/device_manager.cpp:69-117 | the handler gets exactly the measurements of the polls made on an open port, in order; the error handler is called once per counted error and once per turn in which no poll is due |
| Tcp.FramingExact | src/tcp/tcp_client.cpp:109-115 | a receiver recovers the messages sent whole, and nothing else, if and only if no message and no unfinished rest contains a line feed |
| Tcp.TcpClient.constructor | src/tcp/tcp_client.cpp:14-18 | not connected, nothing sent |
| Tcp.TcpClient.SendAll | src/tcp/tcp_client.cpp:151-182 | succeeds if and only if, before any call fails or accepts nothing, the calls of send accept enough; otherwise the bytes gone out are those accepted before the first such call |
| Tcp.InterruptionIgnored | src/tcp/tcp_client.cpp:165-170 | an interrupted call changes nothing, wherever it happens |
| Tcp.TcpClient.SendJson | src/tcp/tcp_client.cpp:100-132 | succeeds exactly when there is or can be a connection and the whole line gets out; the bytes of the connection in use grow by the text and a line feed, or by a strict prefix of known length after which it is closed; every connection carries complete lines and at most one strict prefix |
| Tcp.ReceivedIsSent | src/tcp/tcp_client.cpp:100-182 | splitting the accepted bytes of every connection at their line feeds yields the messages sent whole |
| Tcp.PeerReceivesPrefix | src/tcp/tcp_client.cpp:100-182 | however much of a connection's bytes arrives, the peer receives the first of the messages sent whole on it |
| Tcp.RunSends | src/tcp/tcp_client.cpp:100-182 | over any run with reconnects the complete lines of the accepted bytes are exactly the messages for which send_json returned true, in order, and which calls those are |
| Tcp.RunReadings | src/main.cpp:44-70 | for validated measurements the lines are the texts of those whose sends returned true, and of no other measurements |

## Left out

- SocketCAN input, CAN payload parsing, heartbeat and online statistics: straight-line code with one-branch facts.
- termios, poll and socket calls: replaced by the events and outcomes listed above.
- libmosquitto set-up, TLS and authentication, and the refusal of payloads above the int range: code of an unseen library, and one comparison.
- SQL text, WAL and fsync: statements are taken as atomic; the columns that only SQLite fills are not modelled.
- HTTP server, Prometheus rendering, logging, signal handling, YAML configuration and `main`: plumbing and formatting.
- Races on file descriptors while the device manager shuts down, sleeping and wall-clock time: a step model has no clock; a poll being due is a parameter.
- The texts of error messages, the device id and time stamps kept for status display.
- Floating point: readings stay integers in tenths, and the JSON printer prints those.
- Delivery.AtLeastOnce: is about one run of the protocol. Calls that leave the cache different from what their result says are not effects of a run: a successful append onto a fragment, a failed append onto a fragment that reads as a message (which loses that message, an inherited one included), and a removal from a read that fails half way. They end the run; Histories.AtLeastOnceOverall and PublisherRuns.RunPublisher cover them with the messages lost.
- Uart.RunDevice: covers one device and its worker; several workers share nothing but the handlers.
