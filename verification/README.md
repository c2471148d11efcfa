# KORUZA driver: a verified model

The KORUZA driver runs on a Raspberry Pi beside a free-space optical link. It talks to the motor
controller over a serial line, shows the link's state on WS281x LEDs, and keeps statistics of an
accelerometer. This project models the parts of it where a mistake is easy to make and hard to see,
in the form the C code has (classes for structures that are updated in place, methods with loops
over arrays), and proves what those parts promise.

`dafny verify dfyconfig.toml` checks everything.

## What is modelled

**The serial protocol** (`crc32.c`, `message.c`, `frame.c`).

- `ShiftRegister` states the laws a word of a linear feedback shift register obeys and derives from
  them, for any kind of word and width, that a change confined to as many consecutive bits as the
  register holds always changes the state. `Words` shows that 32-bit words with the polynomial
  0xEDB88320 obey the laws; `CrcTable` that each of the 256 words of the table is right; `Crc32` that
  the table-driven loop computes the bit-serial checksum (section 8 of RFC 1952), that it chains,
  that it notices every burst of up to 32 bits, that 32 is the best possible, and exactly which changes it
  notices.
- `Wire` is the format: serialising and parsing are mutual inverses on exactly the acceptable
  messages, every error code is reported for exactly described inputs, and it says precisely which
  corruptions the parser notices. `Builder` covers runs of the typed add functions, and `Message` is
  `message_t` with its operations in place.
- `Framing` is the receiving state machine as a function, with synchronisation from every reachable
  state and the messages delivered after any garbage. `Tokens` specifies framing without a state
  machine and proves that the parser meets the specification while nothing overflows. `FrameParser`
  is `parser_t` with its growing buffer; `FrameWriter` is `frame_message`; `EndToEnd` takes a motor
  command through all layers, as `tests/test_frame.c` does for one command and one position.

**The LED renderer** (`rpi_ws281x/ws2811.c`).

- `BitStream` treats a buffer of 32-bit words as two interleaved streams of bits; `Signals` describes
  writing both, any number of times; `Pixels` turns LEDs into bits and back; `Ws2811` is the five
  nested loops, refined to `Signals`, and the arithmetic of the buffer's size.

**Statistics and motors** (`koruza.c`).

- `Window` and `Statistics`: the ring of the last 120 samples with its running sum agrees with a
  recomputation, whatever the ring's rotation.
- `Motors` and `MotorDriver`: reports, silence, reconnects, requests and restarts in any order, and the
  position that survives them.

## Where the code departs from what it seems to mean

The model follows the code in each case.

- message.c:91 closes a parenthesis late, so that one octet of a checksum is compared where four were
  meant. Parsing takes the number `n` of octets compared; results are proved for every `n` up to 4,
  and `Wire.COMPARED` is the number in the code. `Wire.FourOctetsCatchBursts` shows what four octets
  would catch, `Wire.OneOctetMissesBurst` that one octet lets a burst of 16 bits through, and
  `Wire.CorruptionNoticed` and `Wire.ChangeNoticedIff` exactly what is noticed, for every `n`.
- frame.c:118-121 goes back into the frame after an escaped octet, even when that octet overflowed
  and frame.c:56-59 had just decided to wait for the next frame. So the tail of an oversize frame can
  be handed on as if it were a frame: `Framing.OversizeFrame` says exactly when and which, for payloads
  of every length. Synchronisation still holds.
- frame.c:150-164 looks for room once per octet but writes two for a marker, and writes the END
  unasked. `FrameWriter.StaysInside` gives the exact condition under which nothing is written outside
  the buffer, `FrameWriter.OverrunExample` an input for which something is, and
  `FrameWriter.OverrunAtMostTwo` the bound for all inputs, which is reached
  (`FrameWriter.OverrunOfTwo`). Every message the driver sends to the motor unit has room
  (`EndToEnd.OrderFitsBuffer`).
- ws2811.c:638 declares `bitpos` outside the loop over the channels, so the second channel begins at
  the bit offset the first one left (`Ws2811.SecondOffset`). `Ws2811.SecondResetLongEnough` says for all
  counts, strip types and frequencies exactly when the second channel's reset signal is long enough in
  spite of that: it is cut only if white strips use up the channel and the offset does not fit what
  rounding the buffer up has added. `Ws2811.SecondResetShort` is such a case at 575758 Hz. At the
  driver's own frequency of 800000 Hz (koruza.c:62) it never happens (`Ws2811.ResetsLongAtTarget`).

## Model

| member | source | states |
|---|---|---|
| `ShiftRegister.Register.FeedWord` | crc32.c:26-37 | a word absorbed one bit at a time leaves the register as if it were added at once and shifted as often; for every kind of word that obeys the laws |
| `ShiftRegister.Register.BurstChangesState` | crc32.c:26-37 | a change of at most `width` consecutive bits of a stream never leaves the register's final state unchanged |
| `ShiftRegister.Register.ShiftsSplit` | crc32.c:26-37 | shifting a word is shifting its low bits and merely moving the others: why a table of 256 words is enough |
| `ShiftRegister.Register.FeedDifference` | crc32.c:26-37 | two registers fed streams of equal length differ by what one register is left with that starts at their difference and absorbs the streams' difference |
| `Words.WordsAreLawful` | crc32.c:26-37 | 32-bit words with the reflected polynomial 0xEDB88320 obey the laws of a shift register |
| `Words.WordsAreLinear` | crc32.c:26-37 | the register's step distributes over exclusive or |
| `Words.WordsDiffer` | crc32.c:26-37 | exclusive or of 32-bit words is a difference: zero exactly for equal words, and flipped bits add up |
| `CrcTable.TableEntry` | crc32.c:44-88 | each of the 256 words of the table is eight shift/xor steps of its index |
| `Crc32.TableStepIsEightBits` | crc32.c:97-98 | one round of the loop leaves what eight steps of the serial register leave |
| `Crc32.Crc32` | crc32.c:90-101 | the loop computes the bit-serial CRC-32 of every buffer, continued from every start value |
| `Crc32.Chaining` | crc32.c:90-101 | the checksum of a buffer is that of its second part continued from that of its first |
| `Crc32.BurstDetected` | crc32.c:90-101 | buffers that differ only within 32 consecutive bits, anywhere, have different checksums from the same start value |
| `Crc32.WindowDetected` | crc32.c:90-101 | so have buffers of equal length that differ only within four consecutive octets |
| `Crc32.LongerBurstUndetected` | crc32.c:90-101 | two buffers that differ, only within 33 consecutive bits, with the same checksum: 32 is the limit |
| `Crc32.ChecksumDifference` | crc32.c:90-101 | the checksums of two buffers of equal length differ by what an empty register makes of the buffers' difference, whatever the start value and the data |
| `Crc32.ChangeUnnoticedIff` | crc32.c:90-101 | a change goes unnoticed if and only if it leaves an empty register empty |
| `Bytes.BigEndianRoundTrip` | message.c:69-70 | an integer that fits its field reads back from network order |
| `Bytes.BigEndianInverse` | message.c:69-70 | and any octets are the network order of the integer they read as, which fits the field |
| `Bytes.NetworkOrder` | message.c:69-70 | two or four octets are read with the first as the highest |
| `Bytes.Int32RoundTrip` | message.c:135-142 | a signed 32-bit coordinate survives htonl and ntohl |
| `Bytes.EncodedInt32` | message.c:135-142 | on the wire a coordinate is two's complement, most significant octet first |
| `Bytes.DecodedInt32` | message.c:239-251 | any four octets are read as the two's complement coordinate they hold |
| `Wire.FittingIsMost` | message.c:334-355 | the TLVs written before `message_serialize` gives up are as many as fit, and it succeeds exactly when the whole message fits |
| `Wire.ChecksumOfValues` | message.c:373-380 | the message checksum is the CRC-32 of all values joined, however they are split into TLVs |
| `Wire.ChecksumInNetworkOrder` | message.c:373-380 | the four octets of a checksum, the first as the highest, are the CRC-32 of all values joined |
| `Wire.ValuesJoin` | message.c:373-380 | the values of messages in a row are joined in that order, and those of one TLV are its value |
| `Wire.BurstChangesChecksum` | message.c:373-380 | messages whose joined values differ only within 32 consecutive bits, even across TLVs, have different checksums |
| `Wire.WindowChangesChecksum` | message.c:373-380 | the same for four consecutive octets |
| `Wire.ParseExact` | message.c:46-101 | parsing succeeds with a message exactly when the data are its serialisation, it has at most 25 TLVs and its checksums agree in the octets compared |
| `Wire.ParseCode` | message.c:46-101 | each code, success and reading past a value included, is reported exactly for the inputs that consist of at most 25 acceptable TLVs and the data that stop the loop with that code |
| `Wire.CountLimit` | message.c:52-55 | without checksums a message is acceptable exactly up to 25 TLVs |
| `Wire.RefusedIsEmpty` | message.c:46-101 | data that are refused, for whatever reason, leave an empty message |
| `Wire.SerializeInjective` | message.c:334-355 | different messages have different serialisations |
| `Wire.Truncation` | message.c:50-101 | the first k octets of an acceptable message parse exactly when a TLV ends at k, to the TLVs before it; otherwise the error is PARSE_ERROR and the message empty |
| `Wire.CorruptionNoticed` | message.c:88-95 | a message followed by another's checksum is refused exactly when the two checksums differ in an octet that is compared |
| `Wire.ChangeNoticedIff` | message.c:88-95 | a change of the values that keeps their length is refused exactly when an octet that is compared is not zero in the checksum of the change alone |
| `Wire.FourOctetsCatchBursts` | message.c:88-95 | comparing four octets would refuse every burst of up to 32 bits in the values |
| `Wire.OneOctetMissesBurst` | message.c:91 | the one octet the code compares accepts a message whose checksum does not match |
| `Builder.BuildStaysAccepted` | message.c:103-198 | any run of typed additions to an acceptable message only extends it, and leaves it acceptable |
| `Builder.BuiltMessageParses` | message.c:103-198 | every message built from nothing has at most 25 TLVs and parses back from its serialisation |
| `Builder.BuildKeepsFirst` | message.c:200-211 | no run of additions changes what is found for a type that is already present |
| `Builder.FirstMeans` | message.c:200-211 | what is found for a type is the value of the first TLV of it, and nothing exactly when there is none |
| `Builder.AdditionType` | message.h:31-42 | the number of the TLV type of each of the ten typed additions |
| `Builder.AdditionReadsBack` | message.c:123-198 | the value each typed addition appends, read in network order, is what it was given, part by part |
| `Builder.PositionRoundTrip` | message.c:239-251 | the three signed coordinates of a motor position read back |
| `Builder.EncodedAt` | message.c:135-142 | each of several coordinates is found at its place, four octets each, in the order given |
| `Builder.PayloadReadsBack` | koruza.c:508-512 | in a command with a payload and their checksum the command and the payload are found, and no reply |
| `Builder.BareReadsBack` | koruza.c:406-409 | in a command with its checksum the command is found, and no reply |
| `Builder.MotorMessageReadsBack` | koruza.c:384-393 | the message for a position takes 26 octets, and its receiver gets the same command, no reply, and the same signed coordinates |
| `Message.Message.constructor` | message.c:31-35 | a new message is empty |
| `Message.Message.Init` | message.c:31-35 | afterwards the message is empty, whatever it held |
| `Message.Message.Parse` | message.c:46-101 | the loop reports the code and leaves the TLVs that the recursive definition gives, on every input |
| `Message.Message.ParseTlv` | message.c:51-97 | one round either takes the TLV at the offset or reports and clears, as the definition says |
| `Message.Message.MessageChecksum` | message.c:373-380 | the octets of the chained checksum in network order |
| `Message.Message.TlvAdd` | message.c:103-121 | the TLV is appended, or there are 25, the message is unchanged and that is reported |
| `Message.Message.TlvAddCommand` | message.c:123-127 | appends the addition `Command` |
| `Message.Message.TlvAddMotorPosition` | message.c:135-142 | appends the addition `MotorPosition` |
| `Message.Message.TlvAddPowerReading` | message.c:157-161 | appends the addition `PowerReading` |
| `Message.Message.TlvAddChecksum` | message.c:194-198 | appends the checksum of the values so far |
| `Message.Message.TlvGet` | message.c:200-211 | the first TLV of the type is copied over the destination, whose tail stays; a value too long fails the assertion and an absent type is reported, both leaving the destination alone; stated through `First` alone |
| `Message.Message.SerializedSize` | message.c:324-332 | the exact length of the serialisation |
| `Message.WriteTlvs` | message.c:336-352 | the loop writes the TLVs that fit, as many as fit, and changes nothing behind them |
| `Message.Message.SerializeTo` | message.c:334-355 | the TLVs that fit are written, nothing else in the buffer changes, and the result is the length or -3 |
| `Framing.RunStaysSane` | frame.c:53-124 | over every run the frame holds at most 131071 octets, none in the waiting states, and no completed payload is taken back |
| `Framing.EscapedContent` | frame.c:76-124 | what a frame holds after any escaped content from any state within a frame, overflow included |
| `Framing.FrameSynchronises` | frame.c:76-124 | from every reachable state one complete frame, even one that overflows, leaves the parser idle; and which payloads it hands on |
| `Framing.FramesSynchronise` | frame.c:76-124 | from every reachable state each frame after the first is handled as if it came alone |
| `Framing.DeliveredIffReceptive` | frame.c:76-124 | from every reachable state a payload that fits is delivered exactly when the parser is waiting, in a frame, or behind an escape in a frame that is just full |
| `Framing.GarbageThenFrames` | frame.c:53-124 | after any garbage, frames that fit are completed once each and in order from the second on, and the first too exactly when the garbage left the parser in such a state |
| `Framing.GarbageThenMessages` | frame.c:76-124 | the same for the messages the handler gets: the first is handled exactly when its payload is delivered |
| `Framing.DeliveredIffFits` | frame.c:56-60 | an idle parser hands on a frame's payload unchanged exactly when it has at most 131071 octets |
| `Framing.PlainPayload` | frame.c:147-165 | a payload of any length without an octet 0xF1, 0xF2 or 0xF3 travels as it is between 0xF1 and 0xF2 |
| `Framing.MarkersEscaped` | frame.c:147-165 | and each of these three travels behind an 0xF3 |
| `Framing.ResidueClosedForm` | frame.c:53-74 | content of any length leaves what follows the last of every 131072nd octets when all of these travel escaped, and drops out of the frame otherwise |
| `Framing.FrameOutcome` | frame.c:53-124 | the state after one complete frame of any length, from every reachable state, in closed form |
| `Framing.OversizeFrame` | frame.c:118-121 | of a payload of any length the part after the last dropped octet is handed on exactly when every dropped octet travelled escaped, and nothing otherwise |
| `Framing.ChunkingIrrelevant` | serial.c:181-189 | how the stream is cut into reads makes no difference |
| `Framing.EndToEnd` | frame.c:46-51 | an acceptable message that fits, framed and cut anyhow, makes an idle parser call its handler once with an equal message, and idle again |
| `Tokens.OpenMeans` | frame.c:92-111 | a START is open exactly when it is unescaped and no unescaped START or END follows it |
| `Tokens.ParserMeetsSpecification` | frame.c:76-124 | while nothing overflows, the completed payloads are exactly, in order, the octets between an unescaped START and the next unescaped END without a START between |
| `Tokens.PendingIsBehindEscape` | frame.c:76-124 | the parser stands behind an escape exactly when the stream so far ends in an escape, overflow or not |
| `Tokens.FirstFrameArrives` | frame.c:76-124 | the frame after any garbage is delivered if the garbage does not end in an escape; if it does, exactly when that escape comes in a frame that is just full |
| `Tokens.EscapeLosesFrame` | frame.c:88-91 | a single escape before it loses any frame |
| `Tokens.FrameTokens` | frame.c:147-165 | a frame splits into START, the payload with its markers escaped, and END |
| `Tokens.OnlyOuterMarkers` | frame.c:147-165 | the only unescaped START and END of a frame are its first and last octet |
| `Tokens.FramesPrefixFree` | frame.c:147-165 | no frame is the beginning of another |
| `FrameParser.FrameParser.constructor` | frame.c:25-36 | a new parser is idle, with 1024 octets of buffer and no handler |
| `FrameParser.FrameParser.SetHandler` | serial.c:101-110 | a handler changes nothing else |
| `FrameParser.FrameParser.AddToFrame` | frame.c:53-74 | the octet is appended or the frame dropped; a full buffer grows by 1024 octets, up to 131072, otherwise it stays the same; every write is inside it |
| `FrameParser.FrameParser.PushByte` | frame.c:76-124 | one octet is one step of the state machine, and the handler gets exactly the completed payloads that parse |
| `FrameParser.FrameParser.EndFrame` | frame.c:99-111 | the payload is completed, parsed and handed to the handler if there is one |
| `FrameParser.FrameParser.PushBuffer` | frame.c:46-51 | a buffer is a run of the state machine, and the handler gets the completed payloads that parse, in order |
| `FrameWriter.FrameSize` | frame.c:147-168 | a frame has two octets more than the payload and one more for each marker in it |
| `FrameWriter.EnoughRoom` | frame.c:126-169 | with room for the escaped frame exactly the frame is written; with less than the payload and two nothing is written and the result is -1 |
| `FrameWriter.RefusedIff` | frame.c:126-169 | the result is -1 exactly when the length is less than the payload and two, or the octets before the last take it all; otherwise it is the length of the frame, which is written whole |
| `FrameWriter.GivenUpWhenFull` | frame.c:150-154 | a frame given up part way has filled the buffer to its last octet or with one too many, and ends between two octets of the payload |
| `FrameWriter.StaysInside` | frame.c:150-165 | nothing is written past the given length if and only if the length is refused at once, holds the frame, or is reached exactly before some octet |
| `FrameWriter.OverrunAtMostTwo` | frame.c:150-165 | at most two octets are ever written past the given length |
| `FrameWriter.OverrunExample` | frame.c:150-165 | a message of one TLV and a length of 6 for which seven octets are written |
| `FrameWriter.OverrunOfTwo` | frame.c:150-165 | a message and a length of 7 for which nine octets are written: the bound is reached |
| `FrameWriter.AmpleRoom` | frame.c:126-169 | with twice the size of any payload and two octets more exactly the frame is written |
| `FrameWriter.FrameMessage` | frame.c:126-169 | for every message and length: the result, the octets written, and that nothing else in the output changes |
| `FrameWriter.WriteFrame` | frame.c:147-168 | the same of the framing loop on serialised octets |
| `FrameWriter.WriteContent` | frame.c:150-164 | the loop stops before the first octet that finds the buffer full, with the escaped octets before it written |
| `FrameWriter.PutOctet` | frame.c:156-163 | one octet is written, with an ESCAPE before it if it is a marker |
| `EndToEnd.OrderFitsBuffer` | serial.c:205-206 | the frame of every message to the motor unit takes at most 54 octets, so the static buffer gets exactly the frame |
| `EndToEnd.OrderArrives` | koruza.c:361-437 | every message to the motor unit, cut into reads anyhow, calls the handler once, and the command and any signed coordinates read back |
| `EndToEnd.FrameOrder` | tests/test_frame.c:60-73 | the buffer holds exactly the frame of the message built |
| `EndToEnd.ReceiveFrame` | tests/test_frame.c:82-92 | after the noise the handler gets exactly what parses of the frame's payload |
| `EndToEnd.FrameTest` | tests/test_frame.c:58-98 | for every command and position the noise before the frame is ignored and one message, the one built, is handled |
| `BitStream.NextPosition` | rpi_ws281x/ws2811.c:688-695 | the cursor moves to the next bit of its channel, over every other word |
| `BitStream.ClosedForm` | rpi_ws281x/ws2811.c:688-695 | bit p of a channel is bit 31 - p mod 32 of word c + 2 (p div 32) |
| `BitStream.PositionsDistinct` | rpi_ws281x/ws2811.c:688-695 | different bits of the streams lie at different places of the buffer |
| `BitStream.PutBitAt` | rpi_ws281x/ws2811.c:682-686 | clearing and setting a bit gives it its value and no other bit of the word changes |
| `BitStream.PaintAt` | rpi_ws281x/ws2811.c:680-695 | a run of writes puts each bit in its place on its channel and changes no other bit of either channel |
| `BitStream.SameBits` | rpi_ws281x/ws2811.c:682-686 | words whose 32 bits agree are equal |
| `BitStream.SameStreams` | rpi_ws281x/ws2811.c:680-695 | buffers whose channels agree bit by bit are equal word by word |
| `Signals.SentAt` | rpi_ws281x/ws2811.c:643-700 | after both channels each bit is that of its channel's data from the channel's offset on, or as it was |
| `Signals.SentReadsBack` | rpi_ws281x/ws2811.c:643-700 | read most significant bit first from its offset, every other word, a channel gives back its bits |
| `Signals.OutsideUnchanged` | rpi_ws281x/ws2811.c:635-700 | over any run of renders of the same lengths the bits outside the data never change |
| `Pixels.Scaled` | rpi_ws281x/ws2811.c:653-656 | a scaled colour is at most the colour and at most the brightness, the colour itself at 255 and 0 at 0 |
| `Pixels.WhiteMask` | rpi_ws281x/ws2811.c:661-665 | a strip has white exactly when one of the highest four bits of its type is set |
| `Pixels.InitDefaults` | rpi_ws281x/ws2811.c:528-545 | a channel without a strip type is an RGB strip, and every LED starts dark |
| `Pixels.ScaledMonotone` | rpi_ws281x/ws2811.c:653-656 | scaling is monotone in colour and brightness |
| `Pixels.DecodeColoursBits` | rpi_ws281x/ws2811.c:667-697 | every run of colours is read back from its symbols |
| `Pixels.ColoursBitsAreSymbols` | rpi_ws281x/ws2811.c:66-67 | nothing but the symbols 110 and 100 is sent |
| `Pixels.ColoursOfLed` | rpi_ws281x/ws2811.c:649-667 | the colours of the i-th LED are the i-th group of three or four octets a channel sends |
| `Pixels.LedOctets` | rpi_ws281x/ws2811.c:649-657 | at any brightness b the three octets for the i-th LED are v * (b + 1) / 256 for each of its octets v, in the order of the channel's shifts |
| `Pixels.WhiteLedOctets` | rpi_ws281x/ws2811.c:649-657 | the same for the four octets of a channel with white |
| `Pixels.StripShifts` | rpi_ws281x/ws2811.c:537-545 | the shifts taken from each three-colour strip type are 0, 8 and 16 in some order, and it has no white; `Ws2811.StripShows` says which order |
| `Pixels.FullBrightnessExact` | rpi_ws281x/ws2811.c:651-657 | at brightness 255 the three colours computed for an LED of any three-colour strip hold its low 24 bits |
| `Pixels.FullBrightnessExactWhite` | rpi_ws281x/ws2811.c:651-657 | at brightness 255 the four colours computed for an LED of any four-colour strip hold all its 32 bits |
| `Ws2811.MaxChannelLedCount` | rpi_ws281x/ws2811.c:106-119 | the loop finds the largest count, or 0 |
| `Ws2811.MaxCountBounds` | rpi_ws281x/ws2811.c:106-119 | no channel has more LEDs than that |
| `Ws2811.MaxCountAttained` | rpi_ws281x/ws2811.c:106-119 | and it is the count of a channel, or 0 |
| `Ws2811.StreamLength` | rpi_ws281x/ws2811.c:57-64 | the rounding leaves each channel a whole number of 64-bit steps, more bits than LEDs and reset need |
| `Ws2811.BufferInsideAllocation` | rpi_ws281x/ws2811.c:480-483 | control block (32 octets) and buffer lie inside the allocation, which is whole pages of 4096 octets, and no more of them than needed |
| `Ws2811.NoOverflow` | rpi_ws281x/ws2811.c:57-64 | no intermediate value of the size formula leaves a 32-bit integer for up to 22 million LEDs |
| `Ws2811.WriteBit` | rpi_ws281x/ws2811.c:680-695 | one round of the innermost loop writes the next bit and advances the cursor |
| `Ws2811.WriteBits` | rpi_ws281x/ws2811.c:678-696 | the three bits of a symbol follow what was written, highest first |
| `Ws2811.WriteSymbol` | rpi_ws281x/ws2811.c:671-696 | a high bit of colour is sent as 110, a low one as 100 |
| `Ws2811.WriteColour` | rpi_ws281x/ws2811.c:669-697 | the eight symbols of a colour follow, highest bit first |
| `Ws2811.WriteColours` | rpi_ws281x/ws2811.c:667-698 | the colours of an LED follow in order |
| `Ws2811.WriteLeds` | rpi_ws281x/ws2811.c:649-699 | the LEDs of a channel follow in order |
| `Ws2811.WriteChannel` | rpi_ws281x/ws2811.c:643-700 | a channel is written from the bit the cursor was left at, and where it is left again |
| `Ws2811.RenderChannel` | rpi_ws281x/ws2811.c:643-700 | a channel's data are written over the buffer from where the channel before left off, nothing else changes, and the bit position is where the next channel starts |
| `Ws2811.Render` | rpi_ws281x/ws2811.c:635-700 | the five loops leave the buffer with both channels' signals written over it and nothing else changed, inside the buffer throughout |
| `Ws2811.ClearChannel` | rpi_ws281x/ws2811.c:395-401 | every word of one channel is zero and those of the other are as before |
| `Ws2811.PwmRawInit` | rpi_ws281x/ws2811.c:385-403 | every word of the buffer is zero |
| `Ws2811.SecondOffset` | rpi_ws281x/ws2811.c:638-643 | the second channel starts exactly 8 bits late for each octet by which the first exceeds a multiple of four, so at most 24 bits, and in time exactly when there is none |
| `Ws2811.BufferHoldsChannels` | rpi_ws281x/ws2811.c:57-64 | at every frequency both channels fit the buffer, whatever their counts and strip types |
| `Ws2811.GapLength` | rpi_ws281x/ws2811.c:56-64 | behind the first channel's data more bits are left than the reset needs; behind the second's, fewer by at most its late start |
| `Ws2811.SecondResetLongEnough` | rpi_ws281x/ws2811.c:56-64 | for all counts, strip types and frequencies: behind the second channel's data there are bits enough for the reset if and only if it has no white, or fewer LEDs than the buffer was made for, or its late start fits the rounding |
| `Ws2811.ResetsLongAtTarget` | rpi_ws281x/ws2811.h:42 | at 800000 Hz both channels have bits enough for the reset, whatever the counts and strip types |
| `Ws2811.SecondResetShort` | rpi_ws281x/ws2811.c:638-643 | at 575758 Hz two strips of three LEDs, the second with white, leave fewer bits than the reset needs |
| `Ws2811.OnlyLastPictureCounts` | rpi_ws281x/ws2811.c:635-700 | after any run of renders for the same strips the buffer depends on the last picture alone |
| `Ws2811.ResetGapStaysZero` | rpi_ws281x/ws2811.c:385-403 | in a buffer cleared once, whatever was rendered, every bit behind a channel's data is zero |
| `Ws2811.RenderDecodes` | rpi_ws281x/ws2811.c:647-698 | whatever the buffer held, each channel decodes to the scaled colours of its LEDs in order |
| `Ws2811.StripShows` | rpi_ws281x/ws2811.c:647-657 | whatever the buffer held, at every brightness b, each of the six three-colour strip types decodes for an LED 0xRRGGBB its red, green and blue, in the order of the type's name, each as v * (b + 1) / 256 |
| `Ws2811.WhiteStripShows` | rpi_ws281x/ws2811.c:647-667 | the same for each of the six types with white and an LED 0xWWRRGGBB, white last |
| `Ws2811.DarkAtZero` | rpi_ws281x/ws2811.c:651-657 | at brightness 0 every strip, of whatever type, decodes zeros |
| `Ws2811.StripShowsLeds` | rpi_ws281x/ws2811.h:54-59 | at brightness 255 what each three-colour strip decodes from the rendered buffer for its i-th LED holds that LED's low 24 bits |
| `Ws2811.WhiteStripShowsLeds` | rpi_ws281x/ws2811.h:45-50 | at brightness 255 what each four-colour strip decodes for its i-th LED holds all 32 bits |
| `Window.RingPush` | koruza.c:837-845 | storing at the index turns the ring of the old samples into that of the new, and what is overwritten is the oldest sample of a full window, or zero |
| `Window.RingIsRotation` | koruza.h:42-45 | the slots in use are the last samples, rotated |
| `Window.RunningMaxIsMaximum` | koruza.c:857-864 | the running maximum of at least one sample is the maximum |
| `Window.SumOfOne` | koruza.c:837-840 | the sum of nothing is 0 and that of one sample the sample |
| `Window.SquareSumIsSum` | koruza.c:857-868 | the sum the pass makes is that of the squared deviations from the mean |
| `Statistics.StatisticsItem.constructor` | koruza.h:36-46 | a new item is all zeros |
| `Statistics.StatisticsItem.Update` | koruza.c:833-852 | an update in place is the function whose runs are described below |
| `Statistics.StatisticsItem.Compute` | koruza.c:854-869 | the pass on demand leaves the mean square deviation and the running maximum of the slots in use, and everything else as it was |
| `Statistics.AfterAgrees` | koruza.c:833-852 | after any number of updates the rings, the count, the index (the number of updates modulo 120), the running sum and the average are those of the last 120 samples, and after at least one the variance and maximum of an earlier pass are gone |
| `Statistics.UpdateInvalidates` | koruza.c:849-851 | an update sets variance and maximum to NAN and -INFINITY, whatever they were |
| `Statistics.NothingComputed` | koruza.c:854-869 | without a sample the pass finds neither, and changes nothing else |
| `Statistics.ComputedAgrees` | koruza.c:854-869 | and the pass on demand finds their population variance and their maximum, whatever the rotation |
| `Motors.LoadRange` | koruza.c:180-190 | a configured range is loaded if it is positive, and 25000 otherwise |
| `Motors.LoadCoordinate` | koruza.c:192-200 | the stored coordinate is loaded if it is in range, and 0 otherwise |
| `Motors.LoadedPosition` | koruza.c:180-200 | each coordinate is loaded as it is stored if it is in the range configured for it, or in 25000 if none is or it is not positive, and is 0 otherwise |
| `Motors.OrderReadsBack` | koruza.c:361-437 | every message to the motor unit has its exact size, and in it are found the command, no reply, the position of a move or restore, and the power of a status request |
| `Motors.SurvivesMessage` | koruza.c:239-315 | a message ends the process by a failed assertion exactly when its first REPLY or COMMAND is longer than one octet, a status report's position longer than 12 or encoder value longer than 8, or an error report's code longer than 4 |
| `Motors.OctetReads` | message.c:213-237 | a local variable of one octet holds the value of the first TLV of its type, what it held before if that value is empty, and 0 without such a TLV |
| `Motors.OtherMessageTakesEffect` | koruza.c:239-315 | a message without a reply, or with another than 1 and 2, sends the position if its command is RESTORE_MOTOR, and changes nothing else in any case |
| `Motors.StatusReportReads` | koruza.c:251-309 | the whole state after any status report: a unit that was away is told the position from before, a position is kept, and saved exactly when it is within both ranges, whatever its length up to 12, and a restore asked for carries the position known by then |
| `Motors.EncoderReportReads` | koruza.c:283-288 | the encoder values are those of the first such TLV, over what the variable held if it is short, or stay |
| `Motors.ErrorReportReads` | koruza.c:293-309 | an error report sets the error code to that of its first such TLV, or leaves it, and does nothing else but a restore it asks for |
| `Motors.StatusReportTakesEffect` | koruza.c:251-309 | the same of a status report that was built with a position or encoder values, or without: exactly these signed values are taken over |
| `Motors.ErrorReportTakesEffect` | koruza.c:293-309 | the same of an error report that was built with an error code, or without |
| `Motors.EventTakesEffect` | koruza.c:378-438 | what each event but a message does to a process that is running: silence disconnects, a poll sends a status request, a move or homing goes out while connected and is dropped otherwise, reboot and upgrade always go out, a restart loads the position and sends nothing |
| `Motors.DeadUntilRestart` | koruza.c:239-315 | after a failed assertion nothing happens until a restart |
| `Motors.SilenceThenReport` | koruza.c:254-261 | a unit that falls silent is told the position known then first of all when it reports again |
| `Motors.ConfigAfter` | koruza.c:263-281 | an event saves the position it reports in range, as a pair, and no other event changes the configuration; ranges stay |
| `Motors.PositionSurvives` | koruza.c:192-200 | over every run what is saved is within the configured ranges or untouched, and a restart would load the last position reported in range, or the one loaded first |
| `Motors.FirstPlacedMeans` | koruza.c:361-437 | the first order that concerns the motors' position is one that was sent, with nothing but status requests, reboots and upgrades before it |
| `Motors.ReconnectRestores` | koruza.c:254-261 | from every state with the unit away, in every run without a restart, the first order from then on that concerns the motors' position restores the position known then, and before it the unit is not connected |
| `Motors.FirstMessageRestores` | koruza.c:254-261 | in particular the first such order after a start restores the position loaded |
| `Motors.RestartRestoresPosition` | koruza.c:239-315 | whatever came before a restart, that first order after it restores the last position reported in range, or the one loaded initially |
| `MotorDriver.MotorDriver.ReadRange` | koruza.c:180-184 | the configured range if it is positive, and 25000 otherwise |
| `MotorDriver.MotorDriver.ReadCoordinate` | koruza.c:192-195 | the stored coordinate if it is in range, and 0 otherwise |
| `MotorDriver.MotorDriver.constructor` | koruza.c:180-200 | running, not connected, the position and ranges loaded, no encoder values and no error, nothing sent |
| `MotorDriver.OrderOnWire` | koruza.c:361-437 | an order puts one acceptable message on the wire, in which its command, the position it carries and the power it reports are found |
| `MotorDriver.MotorDriver.Transmit` | serial.c:192-225 | a message for an order is the next passed to `serial_send_message`, and is one more on the wire with the order's command |
| `MotorDriver.MotorDriver.Send` | koruza.c:368-374 | one more message is on the wire, in which the command and the position are found |
| `MotorDriver.MotorDriver.SendPlain` | koruza.c:406-411 | one more message is on the wire, in which the command is found |
| `MotorDriver.MotorDriver.RestoreMotor` | koruza.c:361-376 | one more message is on the wire, with command 7 and the current position |
| `MotorDriver.MotorDriver.MoveMotor` | koruza.c:378-398 | while connected one more message is on the wire, with command 2 and the position asked for, x, y and z; otherwise the wire is unchanged and the result -1 |
| `MotorDriver.MotorDriver.Homing` | koruza.c:400-414 | while connected one more message is on the wire, with command 6; otherwise the wire is unchanged and the result -1 |
| `MotorDriver.MotorDriver.Reboot` | koruza.c:416-426 | one more message is on the wire, with command 4, connected or not |
| `MotorDriver.MotorDriver.FirmwareUpgrade` | koruza.c:428-438 | one more message is on the wire, with command 5, connected or not |
| `MotorDriver.MotorDriver.StatusMessage` | koruza.c:508-512 | the status request with its power reading and checksum |
| `MotorDriver.MotorDriver.UpdateStatus` | koruza.c:507-516 | one more message is on the wire, with command 1 and the power reading, and if that fails the unit counts as disconnected |
| `MotorDriver.MotorDriver.Disconnect` | koruza.c:787-795 | the unit counts as disconnected and nothing else changes |
| `MotorDriver.MotorDriver.GetOctet` | message.c:213-237 | the value of the first TLV of the type, what the variable held if that is empty, 0 without one, or a failed assertion if it is too long |
| `MotorDriver.MotorDriver.GetStruct` | message.c:239-263 | the octets a getter leaves in its structure, and its code |
| `MotorDriver.MotorDriver.HandleMessage` | koruza.c:239-315 | the handler is the transition whose effects and runs are described above, for every message |
| `MotorDriver.MotorDriver.HandleStatusReport` | koruza.c:251-291 | the case of a status report |
| `MotorDriver.MotorDriver.StorePosition` | koruza.c:266-280 | the position is kept always and saved exactly when both coordinates are within their ranges |
| `MotorDriver.MotorDriver.HandleEncoder` | koruza.c:283-288 | the encoder values are kept if there are any |
| `MotorDriver.MotorDriver.HandleErrorReport` | koruza.c:293-301 | the error code is kept if there is one |

## Left out

- Serial ports, GPIO, network, ubus, upgrades and system logging: system calls and library glue. Reads arrive as arbitrary chunks, writes are the sequence of messages passed to `serial_send_message`, whose result only the status request looks at: `reached` says what it was.
- The configuration store: an in-memory record of the motor section whose commits succeed; nobody else changes the ranges during a run.
- Allocation failures, `free`, and the memory message.c:91-93 does not return on a checksum mismatch.
- Timers: a reply timeout may come at any moment, so a run may hold one anywhere.
- Undefined behaviour of C: reading past the value of a checksum TLV that is too short is the outcome `ReadPastValue`; an assertion that fails ends the process until a restart; a shift by 32 or more is excluded by `Pixels.Channel.Valid`; uninitialised local variables are parameters.
- The typed add functions other than command, motor position, power reading and checksum have no method of their own; `Builder.Addition` covers all ten, and `Message.TlvAdd` is what they call. The getters for current, SFP calibration and vibration values are not modelled.
- `message_print`, the survey, camera calibration, the hard reset of the motor unit and LED colour thresholds: single branches or output.
- Hardware registers, DMA, clocks, the mailbox and board detection of rpi_ws281x; `ws2811_render` is modelled up to the moment its buffer is complete.
- The interference of a DMA transfer with a render that overwrites the buffer while it is being sent.
- Statistics.AfterAgrees: holds over the real numbers; the rounding of `float`, NaN and infinite samples are not modelled, and NAN and -INFINITY as results are `None`.
- Statistics.ComputedAgrees: needs at least one sample, because with none the code divides by zero and the result is `None`.
- Ws2811.GapLength: for the second channel a lower bound only; `Ws2811.SecondResetLongEnough` is the exact condition.
- MotorDriver.MotorDriver.Transmit: records the message; whether `serial_send_message` could write it is not part of this model.
- MotorDriver.MotorDriver.UpdateStatus: takes the result of `serial_send_message` as the parameter `reached`.
- Ws2811.NoOverflow: an upper limit on the LED count that is enough, not the largest one.
- FrameWriter.FrameMessage: requires the array to have room for what is written, because C leaves writes outside it undefined; `FrameWriter.StaysInside` says when the given length suffices.
- The accelerometer's serial device, its connection and the status requests it gets.
