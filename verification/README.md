# rfid_trixlog card reader core in Dafny

This project models the two pieces of the rfid_trixlog ESP32 firmware that
hold real logic, and proves properties of the model:

- **The Wiegand decoders.** `Wiegand` accepts 26- or 34-bit frames and
  does no parity check. `Wiegand34` accepts 34-bit frames only and checks
  two parity bits. Both keep the same state:
  - a 32-bit shift register `_cardTemp`;
  - a carry register `_cardTempHigh` for bits beyond the 31st;
  - a bit counter;
  - the time of the last pulse;
  - the decoded card code (`Wiegand` also keeps the frame type).

  A pulse on the D0 or D1 line shifts one bit in. After more than 25 ms of
  silence, a conversion accepts or rejects what was collected and re-arms
  the decoder.
- **The serial frame encoder** (`SimpleProtocol`). It builds
  START · escaped payload · escaped checksum · STOP from a seven-byte
  payload: device id, message counter high and low byte, and four bytes of
  card data.

## Representation

- **Registers.** Every `unsigned long` register and card code is a `Word`: a
  sequence of 32 booleans, most significant bit first, so index 0 is bit 31
  and index 31 is bit 0.
  - The C++ shifts and masks (`<<`, `>>`, `&`, `|`) are the functions `Shl`,
    `Shr`, `And` and `Or` in module `Words`. Each is stated bit by bit.
  - `Value` reads a bit string as an unsigned number.
  - Bit-level facts about shifted registers are sequence facts in this form,
    which keeps the proofs small.
- **Timestamps.** They are `bv32`, because their only arithmetic is the
  wrapping subtraction `millis() - _lastPulseTime`.
- **Bytes.** They are the newtype `byte` (0 to 255).
- **The bit counter** is a `nat`.

Module layout:

- `words.dfy` holds the bit and byte vocabulary.
- `wiegand_frame.dfy` holds the state and pulse handling both decoders share.
  `ReadD0` and `ReadD1` are the same code in both classes.
- `wiegand.dfy` and `wiegand34.dfy` hold the two decoder classes.
- `simple_protocol.dfy` holds the frame encoder.

What the proofs establish about the code as written:

- **Register invariant.** From a cleared state, after pulses carrying bits
  s = b1..bn (b1 first):
  - `_cardTemp` holds the last 31 bits of s, shifted up one place;
  - `_cardTempHigh` holds the bits that fell out of `_cardTemp`, also
    shifted up one place.

  The carry register is shifted one place further than the comments
  suggest. For 34 bits it ends up as b1, b2, b3 over a cleared bit 0.
- **26-bit frames.** The code is b2..b25, so it is below 2^24.
- **34-bit frames.** The code is b3 in bit 31, a 0 in bit 30, then b4..b33.
  Two consequences:
  - b1 and b2 never reach the code;
  - bit 30 is always clear.

  This is not what the comment "removing the parity bits" at
  lib/wiegand/Wiegand.cpp:122-123 promises.
- **Wiegand34 right check.** It passes exactly when b18..b34 hold an even
  number of ones.
- **Wiegand34 left check.** It passes exactly when b3..b17 hold an odd
  number of ones. It compares b2 with a window that itself contains b2, so
  b2 cancels out, and b1 is never inspected. Changing b1 or b2 changes
  neither the verdict nor the code.
- **parityCalc doc comment.** The comment at
  lib/wiegand34/Wiegand34.cpp:131-133 describes the result the opposite way
  round for both values of `type`. The model follows the code: with `type`
  true the result is "odd count".

- **A worked frame.** Payload C5 00 01 04 01 10 04 has four reserved
  bytes (0x01 twice, 0x04 twice), so the escaped body is 11 bytes. Its sum
  is 343, the checksum is 0x57, and the frame is 14 bytes long.

The model keeps the arithmetic exactly as written, apart from the integer
widths listed under "## Left out". No corrected decoder is
proposed.

## Model

| member | source | states |
|---|---|---|
| WiegandFrame.ReadBit | lib/wiegand/Wiegand.cpp:90-120 | a pulse adds one to the count and records `now` as the last pulse time. `_cardTemp` moves up one place with a cleared bit 0, and its new bit 1 is set for D1 and kept for D0. From the 32nd pulse on, `_cardTempHigh` moves up one place, takes the old top bit of `_cardTemp` into bit 1 and gets a cleared bit 0. Before that, `_cardTempHigh` is untouched |
| WiegandFrame.ReadBitKeepsBit0Clear | lib/wiegand/Wiegand.cpp:91-99 | after any pulse bit 0 of `_cardTemp` is clear, and bit 0 of `_cardTempHigh` stays clear if it was |
| WiegandFrame.ReadBitHolds | lib/wiegand/Wiegand.cpp:90-120 | one pulse extends the register invariant by the pulse's bit |
| WiegandFrame.FeedHolds | lib/wiegand/Wiegand.cpp:90-120 | from a cleared decoder, any pulse train leaves the count equal to its length. `_cardTemp` holds its last 31 bits shifted up one place, and `_cardTempHigh` holds the bits that overflowed, shifted up one place |
| WiegandFrame.ShortTrain | lib/wiegand/Wiegand.cpp:108-117 | after at most 31 pulses from reset, `_cardTemp` is the bits shifted up one place and `_cardTempHigh` is 0 |
| WiegandFrame.Feed | lib/wiegand/Wiegand.cpp:91-100 | a train of pulses adds its length to the count, and the last pulse's time becomes the last pulse time |
| WiegandFrame.Compensated | lib/wiegand/Wiegand.cpp:153 | the one-place right shift before conversion leaves exactly the last 31 bits received, or all of them if fewer |
| WiegandFrame.BigEndianFields | lib/wiegand/Wiegand.cpp:36-42 | the four buffer bytes are bits 31-24, 23-16, 15-8 and 7-0 of the code |
| WiegandFrame.BigEndianRecombines | lib/wiegand/Wiegand.cpp:36-42 | recombining the four buffer bytes big-endian gives back the code's value |
| Wiegand.InitialIsClear | lib/wiegand/Wiegand.cpp:14-19 | the static initialisers leave the accumulator cleared and the code and type 0, so the results about trains from a cleared decoder cover the first frame after power-up |
| Wiegand.ReadD0 | lib/wiegand/Wiegand.cpp:90-101 | a D0 pulse adds one to the count, records the time and shifts `_cardTemp` up with a 0 entering. Code and type are unchanged |
| Wiegand.ReadD1 | lib/wiegand/Wiegand.cpp:107-120 | a D1 pulse adds one to the count, records the time and shifts `_cardTemp` up with a 1 entering. Code and type are unchanged |
| Wiegand.ReceiveAll | lib/wiegand/Wiegand.cpp:90-120 | a pulse train changes only the shared register state, never the code or type |
| Wiegand.GetCardId | lib/wiegand/Wiegand.cpp:130-140 | for 34 bits the result is bits 1 and 0 of `codehigh` over `codelow` shifted down one place. Otherwise it is bits 24 to 1 of `codelow`, moved down one place under 8 zero bits |
| Wiegand.DoWiegandConversion | lib/wiegand/Wiegand.cpp:148-172 | it succeeds iff more than 25 ms (wrapping) have passed and the count is 26 or 34. Without silence nothing changes. On success the registers and count are cleared, the type becomes the count and the pulse time is kept. On noise the registers and count are cleared, the time becomes `now`, and code and type are kept |
| Wiegand.CodeInBufferIsBigEndian | lib/wiegand/Wiegand.cpp:36-42 | `getCodeInBuffer` gives the four big-endian bytes of the code, and they recombine to it |
| Wiegand.ConvertedCode | lib/wiegand/Wiegand.cpp:131-138 | read off the registers as they were before the conversion, the stored code for 34 bits is `(_cardTempHigh & 3) << 30` combined by OR with `_cardTemp >> 2`: bits 1 and 0 of `_cardTempHigh`, then bits 31 to 2 of `_cardTemp`. For 26 bits it is bits 25 to 2 of `_cardTemp`, moved down to bit 0 under 8 zero bits |
| Wiegand.Card26 | lib/wiegand/Wiegand.cpp:137-139 | for a 26-bit train the extraction gives b2..b25 under 8 zero bits |
| Wiegand.Card34 | lib/wiegand/Wiegand.cpp:131-136 | for a 34-bit train the extraction gives b3, then a 0, then b4..b33 |
| Wiegand.Decode26 | lib/wiegand/Wiegand.cpp:152-159 | any 26 pulses from reset followed by silence are accepted as type 26. The code is b2..b25 and its value is below 2^24 |
| Wiegand.Decode34 | lib/wiegand/Wiegand.cpp:152-159 | any 34 pulses from reset followed by silence are accepted as type 34, with code b3, 0, b4..b33 |
| Wiegand.Decode34Loses | lib/wiegand/Wiegand.cpp:131-136 | the 34-bit code always has bit 30 clear, and two trains that differ only in b1 and b2 give the same code |
| Wiegand34.InitialIsClear | lib/wiegand34/Wiegand34.cpp:14-18 | the static initialisers leave the accumulator cleared and the code 0 |
| Wiegand34.ReadD0 | lib/wiegand34/Wiegand34.cpp:80-91 | the same pulse handling as the generic decoder for D0. The code is unchanged |
| Wiegand34.ReadD1 | lib/wiegand34/Wiegand34.cpp:97-110 | the same pulse handling as the generic decoder for D1. The code is unchanged |
| Wiegand34.ReceiveAll | lib/wiegand34/Wiegand34.cpp:80-110 | a pulse train changes only the shared register state, never the code |
| Wiegand34.GetCardId | lib/wiegand34/Wiegand34.cpp:119-124 | the result is bits 1 and 0 of `codehigh` over `codelow` shifted down one place. It equals the generic decoder's 34-bit extraction |
| Wiegand34.ParityCalc | lib/wiegand34/Wiegand34.cpp:135-147 | the loop counts the ones among the n + 1 lowest bits, or among none when n < 0, capped at 32. With `type` true it returns whether that count is odd, with `type` false whether it is even |
| Wiegand34.RightTest | lib/wiegand34/Wiegand34.cpp:160-168 | the stored bit `_cardTemp & 1` equals `rpar` exactly when the last bit received is set iff the 16 bits before it hold an odd number of ones |
| Wiegand34.LeftTest | lib/wiegand34/Wiegand34.cpp:164-169 | the stored bit `_cardTempHigh>>2 & 1` equals `lpar` exactly when that bit is set iff the 17-bit window built from both registers holds an even number of ones |
| Wiegand34.DoWiegandConversion | lib/wiegand34/Wiegand34.cpp:155-196 | it succeeds iff there has been silence, the count is 34 and both checks pass. Without silence nothing changes. After silence the registers and count are always cleared. On success the pulse time is kept. On a parity mismatch the code and pulse time are kept. On noise the time becomes `now` and the code is kept |
| Wiegand34.ChecksOnFrame | lib/wiegand34/Wiegand34.cpp:160-171 | on a 34-bit train the right check passes iff b18..b34 hold an even number of ones, and the left check passes iff b3..b17 hold an odd number |
| Wiegand34.Decode34 | lib/wiegand34/Wiegand34.cpp:159-183 | 34 pulses from reset followed by silence are accepted iff b3..b17 have odd and b18..b34 even parity. If accepted the code is b3, 0, b4..b33. Otherwise the code is unchanged |
| Wiegand34.AcceptedCode | lib/wiegand34/Wiegand34.cpp:172-183 | an accepted frame had 34 bits after silence. The code it stores is the one the generic decoder would store for the same registers |
| Wiegand34.VerdictIgnoresFirstTwo | lib/wiegand34/Wiegand34.cpp:164-172 | two 34-bit trains that differ only in b1 and b2 get the same verdict and the same code |
| Wiegand34.CodeInBufferIsBigEndian | lib/wiegand34/Wiegand34.cpp:35-41 | `getCodeInBuffer` gives the four big-endian bytes of the code, and they recombine to it |
| SimpleProtocol.Mask | lib/protocol/SimpleProtocol.cpp:90-93 | `msk[1]` is 10 and `msk[0]` is the value plus 20 modulo 256. Subtracting 20 recovers the value, and for 1, 4 or 10 `msk[0]` is 21, 24 or 30, none of them reserved |
| SimpleProtocol.Escape | lib/protocol/SimpleProtocol.cpp:40-49 | a byte takes two bytes iff it is 1, 4 or 10, and it is then sent as 10 followed by the value plus 20. Any other byte is sent unchanged |
| SimpleProtocol.PutByte | lib/protocol/SimpleProtocol.cpp:40-49 | one pass of the escaping loop writes the byte's escape at `index` and advances `index` by its length, without touching earlier bytes |
| SimpleProtocol.EscapePayload | lib/protocol/SimpleProtocol.cpp:35-50 | the escaping loop never writes outside the 14-byte buffer. `index` ends between 7 and 14, and the buffer up to `index` is the payload escaped byte by byte, in order |
| SimpleProtocol.Checksum | lib/protocol/SimpleProtocol.cpp:76-82 | the result is the low byte of the sum of the first `size` bytes, or 0 when `size` is not positive |
| SimpleProtocol.Send | lib/protocol/SimpleProtocol.cpp:34-67 | the bytes written are START, the escaped payload, the escaped checksum of the escaped payload, and STOP |
| SimpleProtocol.UnescapeEscapeAll | lib/protocol/SimpleProtocol.cpp:39-50 | un-escaping (a 10 followed by x stands for x - 20) recovers every escaped byte string |
| SimpleProtocol.EscapeAllClean | lib/protocol/SimpleProtocol.cpp:40-44 | an escaped string contains no 1 and no 4, and every 10 in it is followed by 21, 24 or 30 |
| SimpleProtocol.FrameShape | lib/protocol/SimpleProtocol.cpp:53-66 | every frame is 10 to 18 bytes long, starts with START and ends with STOP. Its interior has no START or STOP, every 10 in it is followed by 21, 24 or 30, and un-escaping the interior gives the payload followed by the checksum |
| SimpleProtocol.ExampleFrame | lib/protocol/SimpleProtocol.cpp:34-82 | the payload C5 00 01 04 01 10 04 gives the 14-byte frame 01 C5 00 0A 15 0A 18 0A 15 10 0A 18 57 04 |

## Left out

- `begin` in all three classes: pin modes, interrupt attachment and the
  serial port speed are hardware set-up with no logic.
- `available` in both decoders: it brackets `DoWiegandConversion` with
  `noInterrupts()` / `interrupts()`. It is modelled as one atomic step,
  `DoWiegandConversion`. Interrupt interleaving and the `volatile`
  qualifiers are concurrency concerns outside a sequential model.
- `millis()`: the clock is passed in as the parameter `now`.
- `Serial.println` at lib/wiegand34/Wiegand34.cpp:165-166: debug output with
  no effect on state.
- `Serial.write` in `send` is modelled as appending to the returned byte
  sequence.
- src/main.cpp is not part of this model. It is glue: LED pins, delays and
  splitting the message counter into two bytes.
- The header files contribute only their constants: `WIEGAND26`,
  `WIEGAND34`, `START`, `STOP` and `MASK_CHAR`.
- The static arrays returned by `getCodeInBuffer` and the global `msk` are
  modelled as returned values, without their aliasing.
- `getCode` and `getWiegandType` are plain reads of the decoder state,
  modelled as field accessors with no contract of their own.
- The in-place updates of `_cardTemp` and `_cardTempHigh` through the
  pointers passed to `GetCardId` are not modelled. Both registers are
  cleared straight afterwards, so nothing can observe them.
- `_bitCount` is a `nat`. The overflow of the C++ `int` counter after about
  2^31 pulses without a conversion is not modelled.
- Wiegand34.ParityCalc: the `int` counter and the `int` loop index are
  unbounded. At most 32 ones can be counted, so the counter cannot overflow
  in the C++ code either. The index can: for n equal to the largest `int`,
  `i++` overflows, which is undefined behaviour and in practice a loop
  that never ends. The model instead stops after n + 1 turns and returns the
  parity of all 32 bits. This overflow is not modelled; the firmware only
  ever passes n = 16.
- SimpleProtocol.Checksum: the `int` sum is a `nat`. It is only
  `int`-exact for buffers shorter than about eight million bytes, far
  beyond the 14 bytes `send` passes.
- `send` reads `data[0]` to `data[3]`, so the model requires at least four
  data bytes. A shorter C++ array is undefined behaviour.
