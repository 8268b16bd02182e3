# rcswitch-avr in Dafny

A model of the codec at the heart of rcswitch-avr, the AVR port of the
RCSwitch library for 433 MHz remote-control sockets. The model covers these
parts of `RCSwitch.c` and `RCSwitch.h`:

- The protocol table `proto[]` and `setProtocol`.
- The code-word encoders `sendTriState` and `sendBinary`.
- The frame generator `send`, with `transmit` taken as emitting one pulse.
- The decoder `receiveProtocol`, with its helper `diff`.
- The published result, with `available` and `resetAvailable`.
- The framing logic of the edge-capture interrupt `ISR(INT0_vect)`, with the
  decode coordinator it runs and `enableReceive`.

Integer arithmetic follows the AVR build:

- `int` is 16 bits wide, so every `uint16_t` sum, product and shift wraps
  modulo 2^16 (`Arith.Wrap16`, `Arith.Mul16`).
- `diff` is `abs` of the wrapped difference read as a 16-bit `int`.
- `send`'s loop index is an `int8_t`.

Modules:

- `Arith`: the machine integers.
- `Bits`: most-significant-first bit strings and the values they spell.
- `Protocols`: `HighLow`, `Protocol`, the table and the buffer constants.
- `Transmitter`: configuration, encoders, frames and `send`.
- `Receiver`: the published record, the matching window and
  `receiveProtocol`.
- `Capture`: the interrupt handler as a step function over its statics, plus
  the coordinator.
- `RoundTrip`: what the receiver makes of the frames the transmitter emits.

The decoder is stated against an independent description: `Pairs` (the slot
pairs it reads), `PairBit` (the bit each pair encodes) and `ValueOf` (the
number a bit string spells).

The round trip is stated end to end, from one frame of `send` through the
interrupt handler to the published record. It works out what the coordinator reports
for each protocol's frames at the default 60 percent tolerance:

- Protocol 2 also reads protocol 5's frames, at a base length of 700
  microseconds. Since protocol 2 is tried first, those frames are reported
  as protocol 2.
- A protocol 3 frame whose bits are all zero is also read by protocol 2,
  at 710 microseconds, and is reported as protocol 2.

## Model

| member | source | states |
|---|---|---|
| Arith.Mul16 | RCSwitch.c:307 | A `uint16_t` product, such as `delay * nReceiveTolerance` here or `delay * pro.zero.high` at RCSwitch.c:332-339, is congruent to the true product modulo 2^16. It equals the true product whenever that fits in 16 bits, and never exceeds it |
| Arith.Int8Of | RCSwitch.c:168 | Storing a byte in `int8_t` keeps it modulo 256 and makes it negative exactly when it is 128 or more |
| Arith.DiffDistance | RCSwitch.c:292-295 | `diff(A, B)` is at most 32768. It equals the true distance exactly when that distance is at most 32768, and otherwise it is 65536 minus the distance |
| Arith.DiffSymmetric | RCSwitch.c:292-295 | `diff(A, B) == diff(B, A)` |
| Arith.WrapAdd | RCSwitch.c:129 | A `uint16_t` length counter that has wrapped keeps wrapping consistently: adding after the wrap is the same as wrapping the whole sum |
| Bits.AccumulateBit | RCSwitch.c:328-343 | One turn of the `uint16_t` register update (shift left by one, OR in `b`) appends `b` to the bit string whose value the register holds modulo 2^16 |
| Bits.ValueOfMsbFirst | RCSwitch.c:152-156 | Reading back the low `n` bits of `x`, most significant first, yields `x mod 2^n` |
| Bits.BitAboveWidth | RCSwitch.c:170 | A number below 2^n has no bit set at position n or higher, so bits 16 and up of a 16-bit code are zero |
| Bits.ValueOfZero | RCSwitch.c:281-284 | A bit string spells 0 exactly when none of its bits is set |
| Protocols.SetProtocol | RCSwitch.c:76-83 | The selected protocol is always a table entry. Index n in 1..6 selects entry n - 1. The result is protocol 1 exactly when n is 0, 1 or above 6 |
| Protocols.BufferFitsWidestFrame | RCSwitch.h:46-48 | 67 slots hold the sync slot and two slots per bit of a 32-bit frame, with one to spare |
| Protocols.TableDurationsFit | RCSwitch.c:60-67 | Each table product `pulseLength * factor` fits in 16 bits, so no transmitted duration wraps |
| Protocols.Waveform | RCSwitch.h:63-67 | A `HighLow` is two opposite levels, lasting `(high + low) * pulseLength` in total |
| Protocols.InversionKeepsDurations | RCSwitch.h:90-106 | Inversion swaps which level comes first. The first level still lasts `high * pulseLength` and the second `low * pulseLength` |
| Transmitter.EnableTransmit | RCSwitch.c:88-94 | Enabling selects protocol 1 and 10 repeats, records the pin and switches the transmitter on |
| Transmitter.DisableTransmit | RCSwitch.c:99-102 | Disabling stores 255 (-1 as `uint8_t`) in the pin, switches the transmitter off, and keeps protocol and repeats |
| Transmitter.SelectProtocol | RCSwitch.c:76-83 | The active protocol becomes `setProtocol(n)`, and nothing else in the configuration changes |
| Transmitter.Transmit | RCSwitch.c:245-253 | Each busy-wait length is the product `pulseLength * factor` modulo 2^16, never longer than the true one. When the products fit, the pulse is the non-inverted waveform of the pattern, so inversion is ignored on transmit |
| Transmitter.BitCount | RCSwitch.c:168 | The `int8_t` index makes lengths 1..128 send that many bits. Lengths 0 and 129..256 send none. No frame exceeds 128 bits |
| Transmitter.DataPulses | RCSwitch.c:168-174 | The data pulses for bits `i` down to 0: entry `k` is the one or zero pulse of bit `i - k` |
| Transmitter.Frame | RCSwitch.c:166-176 | One frame has `BitCount(length) + 1` pulses. Entry `k` is the pulse of bit `BitCount - 1 - k`, and the sync pulse comes last |
| Transmitter.HighBitsSendZero | RCSwitch.c:168-174 | Data bits at positions 16 and above go out as zero pulses |
| Transmitter.EmitFrame | RCSwitch.c:168-175 | The inner loop of `send` emits exactly one frame |
| Transmitter.EmitFrames | RCSwitch.c:166-176 | The outer loop emits `nRepeatTransmit` frames back to back: `R * (n + 1)` pulses, with pulse `k` being frame pulse `k mod (n + 1)`, so every (n + 1)-th pulse is a sync pulse |
| Transmitter.Send | RCSwitch.c:157-181 | A disabled transmitter emits nothing. An enabled one emits `nRepeatTransmit` copies of the frame |
| Transmitter.SendAsWritten | RCSwitch.c:157-160 | The guard as written never returns early: the frames go out whatever the pin holds |
| Transmitter.DisabledTransmitterStillSends | RCSwitch.c:157-176 | After enable and then disable, the configuration is off, yet the guard as written lets `send(123, 7)` emit 80 pulses |
| Transmitter.TriStateWord | RCSwitch.c:107-131 | The length is twice the symbol count, wrapped to 16 bits. The code is the value of the word's expansion (00, 01, 11 per symbol) modulo 2^16 |
| Transmitter.AccumulateSymbol | RCSwitch.c:114-127 | One turn of the `uint16_t` register update (shift left by two, OR in the symbol's code) appends the symbol's two bits |
| Transmitter.AppendSymbol | RCSwitch.c:114-127 | Appending a symbol's bits multiplies the value by four and adds 0, 1 or 3 |
| Transmitter.SymbolBitsCode | RCSwitch.c:115-128 | The two bits of 0, F and 1 spell 0, 1 and 3. Any other character spells 0 |
| Transmitter.BinaryWord | RCSwitch.c:137-149 | The length is the character count, wrapped to 16 bits. The code is the value of the word's bits modulo 2^16 |
| Transmitter.TriStateExample | RCSwitch.c:107-131 | "0F1" is 000111: code 7, length 6 |
| Transmitter.BinaryExample | RCSwitch.c:137-149 | "0111" is code 7, length 4 |
| Transmitter.SendTriState | RCSwitch.c:107-131 | Emits the frames of the tri-state word's code and length, or nothing when disabled. A word of up to 16 symbols gives `R * (2 * symbols + 1)` pulses |
| Transmitter.SendBinary | RCSwitch.c:137-150 | Emits the frames of the binary word's code and length, or nothing when disabled. A word of 1 to 32 characters gives `R * (characters + 1)` pulses |
| Receiver.ResetAvailable | RCSwitch.c:286-289 | Afterwards nothing is available. Bit length, delay and protocol are kept |
| Receiver.SyncLengthInPulses | RCSwitch.c:305 | The larger of the sync pattern's two factors |
| Receiver.SyncLengthPositive | RCSwitch.c:305-306 | No protocol of the table divides by zero |
| Receiver.ToleranceWraps | RCSwitch.c:305-307 | The tolerance product wraps before the division. Protocol 2 on an 11000 µs gap derives delay 1100 and tolerance 4, where the unwrapped product would give 660 |
| Receiver.Pairs | RCSwitch.c:328 | The loop reads pairs from slot `i` while `i < changeCount - 1`: as many as fit, leaving at most one slot over |
| Receiver.PairAt | RCSwitch.c:328-333 | Pair `k` is slots `i + 2k` and `i + 2k + 1`, both below `changeCount` |
| Receiver.DecodeReadsPairs | RCSwitch.c:328-350 | The loop completes exactly when every pair matches the zero or one pattern. The register then holds the bits it began with followed by the pairs' bits, modulo 2^16 |
| Receiver.DecodeMatches | RCSwitch.c:328-350 | The loop runs to the end exactly when every pair it reads matches |
| Receiver.DecodeValue | RCSwitch.c:328-343 | When every pair matches, the loop ends with the pairs' bits, most significant first, modulo 2^16 |
| Receiver.ReceiveProtocol | RCSwitch.c:298-362 | Success exactly when more than 7 changes were captured and every pair falls strictly within tolerance of zero (checked first) or one. On success the record holds the pairs' bits modulo 2^16, `(changeCount - 1) / 2`, the delay derived from slot 0, and `p` |
| Receiver.ShortFrameAvailable | RCSwitch.c:281-284 | For at most 16 pairs the value is exactly what the pairs spell. `available()` reports it exactly when some pair decoded as a one |
| Capture.EnableReceive | RCSwitch.c:255-261 | Clears the published record, so nothing is available, and sets the tolerance to 60. Buffer and counters are untouched |
| Capture.InitialValid | RCSwitch.h:138-141 | The zeroed statics, before and after `enableReceive`, satisfy the handler's invariant |
| Capture.FirstDecoderWins | RCSwitch.c:405-412 | The loop over protocols publishes the result of the first protocol that decodes |
| Capture.NoDecoderKeepsPrior | RCSwitch.c:405-412 | When no protocol decodes, the earlier result stays |
| Capture.DecodeFrame | RCSwitch.c:405-413 | The coordinator publishes the first successful protocol's result, or keeps the prior one when none succeeds |
| Capture.DecodeFrameOutcome | RCSwitch.c:405-413 | Both outcomes of the coordinator loop, started at protocol 1 |
| Capture.Step | RCSwitch.c:391-427 | The invariant is kept, and the duration lands at the new write index minus one. The other outcomes: a gap restarts the buffer at slot 0; a non-gap advances the index, or restarts it and drops the pending repeat when the buffer is full; a non-matching gap keeps the repeat count and the record; a first matching gap sets the count to 1; a second runs the coordinator and zeroes the count |
| Capture.Run | RCSwitch.c:391-427 | Any sequence of handler calls keeps the invariant and the tolerance |
| Capture.NoBackToBackDecodes | RCSwitch.c:402-414 | After a decode the repeat count is 0, so the next duration cannot decode again |
| Capture.DataFillsBuffer | RCSwitch.c:419-427 | Short durations, while there is room, are stored one after another behind slot 0, and change nothing else |
| Capture.RepeatedGapDecodes | RCSwitch.c:391-427 | Gap, data, matching gap: the coordinator runs once, on a buffer holding the first gap and the data, with `changeCount` one more than the data count. The new buffer then opens with the second gap, and no repeat is pending |
| RoundTrip.CapturedAt | RCSwitch.h:138-141 | In a captured frame, slot `1 + 2j` holds pulse `j`'s high level and slot `2 + 2j` its low level |
| RoundTrip.PulsesOf | RCSwitch.c:60-65 | The zero and one pulses of protocols 1 to 5, in microseconds |
| RoundTrip.OwnWindow | RCSwitch.c:305-307 | From its own gap, each of protocols 1 to 5 recovers its own pulse length, a tolerance of 60 percent of it, and its own expected levels |
| RoundTrip.OwnReading | RCSwitch.c:332-343 | Protocols 1 to 5 read their own zero pulse as 0 and their own one pulse as 1 |
| RoundTrip.ProtocolOneRejects | RCSwitch.c:345-349 | From the gaps of protocols 2, 3 and 5, protocol 1 derives base lengths 209, 229 and 225, and reads none of their pulses |
| RoundTrip.ProtocolTwoReadsFive | RCSwitch.c:332-343 | From protocol 5's gap, protocol 2 derives 700 and reads protocol 5's pulses as the bits they carry |
| RoundTrip.ProtocolTwoReadsThreesZeros | RCSwitch.c:332-349 | From protocol 3's gap, protocol 2 derives 710. It reads protocol 3's zero pulse and rejects its one pulse |
| RoundTrip.PulseBounds | RCSwitch.h:120-122 | Every level of protocols 1 to 5 except the sync low is at most 4300. The sync low exceeds 4300 for all of them except protocol 4 |
| RoundTrip.FrameIsShort | RCSwitch.c:391 | No captured duration after slot 0 counts as a gap |
| RoundTrip.CapturedPairs | RCSwitch.c:326-333 | Every non-inverted protocol reads exactly the frame's data pulses, in order, from a captured frame |
| RoundTrip.StartsHigh | RCSwitch.c:326 | Data starts in slot 1 for every protocol except protocol 6 |
| RoundTrip.FramePairReading | RCSwitch.c:332-343 | Pair `k` is read as the receiving protocol reads the pulse of code bit `k`, most significant first |
| RoundTrip.WindowFromGap | RCSwitch.c:305-307 | The window derived from a buffer depends only on the gap in slot 0 |
| RoundTrip.FramePulse | RCSwitch.c:168-174 | Data pulse `k` carries bit `length - 1 - k` of the code |
| RoundTrip.FrameReadsBack | RCSwitch.c:298-361 | A protocol that reads each sent pulse as its bit publishes the code modulo 2^length, the length, the derived delay and its own number |
| RoundTrip.FrameRejected | RCSwitch.c:345-349 | A protocol that reads none of the sender's pulses fails on the frame |
| RoundTrip.FrameReadsZerosOnly | RCSwitch.c:328-361 | A protocol that reads only the sender's zero pulses accepts exactly the frames whose bits are all zero, and then publishes 0 |
| RoundTrip.OwnProtocolReads | RCSwitch.c:298-361 | Round trip: protocols 1 to 5 decode a buffer holding their own frame as code modulo 2^length, the length, their own pulse length and their own number |
| RoundTrip.ProtocolOneSkips | RCSwitch.c:345-349 | Protocol 1 fails on frames of protocols 2, 3 and 5 |
| RoundTrip.ProtocolTwoSkipsThree | RCSwitch.c:345-349 | Protocol 2 fails on a protocol 3 frame that has a one bit |
| RoundTrip.ProtocolThreeSkipsOneAndTwo | RCSwitch.c:345-349 | Protocols 1 and 2 both fail on a protocol 3 frame that has a one bit |
| RoundTrip.ProtocolTwoReads | RCSwitch.c:298-361 | Protocol 2 decodes frames of protocols 2 and 5, and all-zero frames of protocol 3, as code modulo 2^length, with delays 650, 700 and 710 |
| RoundTrip.ProtocolThreeReads | RCSwitch.c:298-361 | Protocol 3 decodes its own frame with delay 100 |
| RoundTrip.ThirdDecoderWins | RCSwitch.c:405-412 | When protocols 1 and 2 fail and protocol 3 succeeds, protocol 3's result is published |
| RoundTrip.ReportsProtocolThree | RCSwitch.c:405-412 | A protocol 3 frame with a one bit is published as protocol 3 reads it |
| RoundTrip.DecodesOwnProtocolFirst | RCSwitch.c:405-412 | A protocol 1 frame is published as protocol 1, delay 350 |
| RoundTrip.DecodesAfterProtocolOne | RCSwitch.c:405-412 | Frames of protocols 2 and 5, and all-zero frames of protocol 3, are published as protocol 2 |
| RoundTrip.DecodesProtocolThree | RCSwitch.c:405-412 | A protocol 3 frame with a one bit is published as protocol 3, delay 100 |
| RoundTrip.DecodeFrameRoundTrip | RCSwitch.c:405-413 | The coordinator on a captured frame of protocol 1, 2, 3 or 5 publishes code modulo 2^length and the length, as the protocol and delay `ReportedProtocol` / `ReportedDelay` give |
| RoundTrip.ProtocolSixExample | RCSwitch.c:326-361 | A protocol 6 frame as `transmit` sends it (sync high in slot 0, sync low in slot 1) decodes from slot 2: the frame of `send(5, 3)` gives value 5, bit length 3, base length 450, protocol 6 |
| RoundTrip.CaptureRoundTrip | RCSwitch.c:391-427 | End to end: starting after a matching gap, feeding the handler the durations of one frame from `send`, then the next frame's gap, publishes code modulo 2^length with bit length `length`, for protocols 1, 2, 3 and 5 |

## Left out

- The timer conversion is not modelled. Reading `TCNT0`, the overflow count
  and the tick-to-microsecond scaling in `ISR(INT0_vect)`, and
  `ISR(TIMER0_OVF_vect)`, are hardware-timer plumbing. `Capture.Step` takes
  the duration in microseconds as its input.
- `delay_us` is not modelled. It is a cycle-counted busy-wait. `transmit` is
  modelled as the two durations it would wait.
- Port and register writes are not modelled: `transmit`'s pin toggling, and
  `enableReceive`'s interrupt and timer set-up. Only their effect on the
  library's state is kept.
- Concurrency between the interrupt handler and the main loop is not
  modelled, nor is `volatile`. Every handler call is one atomic step.
- Inverted protocols on transmit are not modelled: the source leaves this
  as a TODO and always starts high.
- `main_receiver.c` and `main_transmitter.c` are not part of this model.
  They are demo loops driving GPIO.
- C strings become Dafny strings. One Dafny character stands for one C
  `char` (byte), and a word holds the characters before the terminating NUL,
  so it contains no NUL itself. Non-ASCII characters, which C would walk as
  several bytes, are not modelled.
- Transmitter.Send: requires the first loop index below 32. Lengths 33 to
  128 would make `1L << i` shift a 32-bit `long` by 32 or more, which C
  leaves undefined. The same bound is on `EmitFrame`, `EmitFrames`,
  `SendAsWritten`, `SendTriState` and `SendBinary`.
- Receiver.ReceiveProtocol: requires `1 <= changeCount`. With 0,
  `changeCount - 1` wraps and the loop would read past the buffer. The
  handler never calls it with 0: a pending repeat implies a recorded gap.
- RoundTrip.CaptureRoundTrip: covers protocols 1, 2, 3 and 5 with lengths 3
  to 32 and exact pulse durations (no jitter). The limits come from the
  source:
  - protocol 4's gap, 2280 microseconds, is never taken as a gap;
  - protocol 6 is sent uninverted, so the receiver takes its sync high
    (10350 microseconds) as the gap, and its sync low sits in slot 1 ahead
    of the data. `CapturedFrame` does not describe that layout, so the
    general round trip does not cover it. `RoundTrip.ProtocolSixExample`
    shows one such capture decoding correctly from slot 2;
  - below 3 bits the decoder refuses the capture (at most 7 changes);
  - above 32 bits a frame does not fit the buffer.
- `nReceivedValue` is a 32-bit `long`, but only a `uint16_t` code is ever
  stored in it. The model keeps its type and stores the same code.
- A long gap that does not match slot 0 leaves the repeat count unchanged.
- An unrecognised tri-state symbol contributes the bits 00.

## Findings

| source | as written | input that shows it | evidently intended | confidence | as-written member | corrected member |
|---|---|---|---|---|---|---|
| RCSwitch.c:159 | `send` returns early only when the `uint8_t` pin equals -1. After promotion the pin is in 0..255, so this never holds, and `disableTransmit` stores 255 | `enableTransmit(port, 4)`, `disableTransmit()`, `send(123, 7)`: `transmit` is still called 80 times (ten frames of eight pulses), each busy-waiting its full durations. What it does to the port is not certain: `1 << 255` on a 16-bit `int` (RCSwitch.c:249) is undefined in C | `send` emits nothing after `disableTransmit` | not executed | Transmitter.SendAsWritten, Transmitter.DisabledTransmitterStillSends | Transmitter.Send |
